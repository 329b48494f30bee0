/** One annotated object of the video-analysis response turned into a car record. */
module Annotations {
  import opened Wrappers
  import opened Geometry
  import opened TimeOffsets
  import opened Units
  import opened Interpolation
  import opened Lookup
  import opened Speed

  /** One tracked frame of an object: its time offset text and the box fields it reports. */
  datatype Frame = Frame(timeOffset: string, normalizedBoundingBox: map<string, real>)

  datatype Entity = Entity(description: string)

  /** One tracked object: what it is and the frames it was seen in, in document order. */
  datatype ObjectAnnotation = ObjectAnnotation(entity: Entity, frames: seq<Frame>)

  /** The dictionary `_parse_annotation` returns: the frame-number-to-box entries, and the keys
      `entrance_time`, `exit_time`, `car_speed`, `rdt` and `index`. */
  datatype Car = Car(boxes: map<int, Box>, entranceTime: string, exitTime: string,
                     carSpeed: real, rdt: real, index: int)

  /** `default_bb`: the four coordinates, every one 0. */
  function DefaultBb(): (bb: map<string, real>)
    ensures bb.Keys == {"left", "top", "right", "bottom"}
    ensures forall name :: name in bb ==> bb[name] == 0.0
  {
    map["left" := 0.0, "right" := 0.0, "top" := 0.0, "bottom" := 0.0]
  }

  /** The value of a coordinate in `default_bb | fields`. */
  function Field(fields: map<string, real>, name: string): real {
    if name in fields then fields[name] else 0.0
  }

  /** `default_bb | fields` read as a box: each coordinate the reported one, or 0 when the
      response leaves it out. */
  function BoxOf(fields: map<string, real>): (b: Box)
    ensures b.left == Field(fields, "left") && b.top == Field(fields, "top")
    ensures b.right == Field(fields, "right") && b.bottom == Field(fields, "bottom")
  {
    var merged := DefaultBb() + fields;
    Box(merged["left"], merged["top"], merged["right"], merged["bottom"])
  }

  /** `_frame_to_box_lookup`: the frame number and box of a frame whose offset starts with a
      number; `(None, None)`, here None, for any other offset. The frame number is the
      whole part of seconds times frame rate. */
  function FrameToBoxLookup(frame: Frame, frameRate: int): (r: Option<Sample>)
    ensures r.Some? <==> StartsWithDigit(frame.timeOffset)
    ensures r.Some? ==> r.value.1 == BoxOf(frame.normalizedBoundingBox)
    ensures r.Some? ==> r.value.0 == SecondsToFrameNumber(TimeToSeconds(frame.timeOffset).value, frameRate)
  {
    match TimeToSeconds(frame.timeOffset)
    case None => None
    case Some(seconds) =>
      var frameNumber := SecondsToFrameNumber(seconds, frameRate);
      var boundingBox := BoxOf(frame.normalizedBoundingBox);
      Some((frameNumber, boundingBox))
  }

  /** At a non-negative frame rate a parsed sample's frame number is the floor of its time
      times the frame rate. */
  lemma SampleFrameIsFloor(frame: Frame, frameRate: int)
    requires StartsWithDigit(frame.timeOffset) && frameRate >= 0
    ensures TimeToSeconds(frame.timeOffset).Some? && TimeToSeconds(frame.timeOffset).value >= 0.0
    ensures var n := FrameToBoxLookup(frame, frameRate).value.0;
      var seconds := TimeToSeconds(frame.timeOffset).value;
      0 <= n && n as real <= seconds * frameRate as real < n as real + 1.0
  {
  }

  /** An offset that is a whole number of seconds followed by a unit lands exactly on frame
      seconds times frame rate. */
  lemma FrameOfWholeSeconds(n: nat, suffix: string, fields: map<string, real>, frameRate: int)
    requires EndsNumber(suffix)
    ensures FrameToBoxLookup(Frame(Render(n) + suffix, fields), frameRate) == Some((n * frameRate, BoxOf(fields)))
  {
    TimeToSecondsOfRendered(n, suffix);
    WholeSecondsFrame(n, frameRate);
  }

  /** `list(map(lambda f: _frame_to_box_lookup(f, frame_rate), frames))`. */
  function FrameBoxes(frames: seq<Frame>, frameRate: int): (samples: seq<Option<Sample>>)
    ensures |samples| == |frames|
    ensures forall i :: 0 <= i < |frames| ==> samples[i] == FrameToBoxLookup(frames[i], frameRate)
  {
    seq(|frames|, i requires 0 <= i < |frames| => FrameToBoxLookup(frames[i], frameRate))
  }

  /** Every time offset of the object starts with a number. */
  predicate OffsetsParse(frames: seq<Frame>) {
    forall i :: 0 <= i < |frames| ==> StartsWithDigit(frames[i].timeOffset)
  }

  lemma FrameBoxesParsed(frames: seq<Frame>, frameRate: int)
    ensures AllParsed(FrameBoxes(frames, frameRate)) <==> OffsetsParse(frames)
  {
    var samples := FrameBoxes(frames, frameRate);
    if !OffsetsParse(frames) {
      var i :| 0 <= i < |frames| && !StartsWithDigit(frames[i].timeOffset);
      assert samples[i].None?;
    }
  }

  /** The frame numbers of an object whose offsets all parse never decrease. */
  predicate FramesInOrder(frames: seq<Frame>, frameRate: int)
    requires OffsetsParse(frames)
  {
    FrameBoxesParsed(frames, frameRate);
    NonDecreasing(FrameBoxes(frames, frameRate))
  }

  /** The value `_parse_annotation` returns or the exception it raises, in the order the source
      meets them: interpolation first, then `frames[0]` of an empty list, then the speed. Speed
      and `rdt` come from the first and last raw samples, the box entries from the
      interpolated list. */
  function AnnotationRecord(index: int, annotation: ObjectAnnotation, frameRate: int, distance: real): (r: Result<Car>)
    ensures var frames := annotation.frames;
      r.Ok? <==> |frames| > 0 && frameRate != 0 && OffsetsParse(frames) && FramesInOrder(frames, frameRate)
    ensures |annotation.frames| == 0 ==> r == Err(NoFrames)
  {
    var frames := annotation.frames;
    var frameBoxes := FrameBoxes(frames, frameRate);
    FrameBoxesParsed(frames, frameRate);
    InterpolateSucceeds(frameBoxes);
    InterpolateErrors(frameBoxes);
    match Interpolate(frameBoxes)
    case Err(e) => Err(e)
    case Ok(allFrameBoxes) =>
      if |frames| == 0 then
        Err(NoFrames)
      else
        match CalculateSpeed(frameBoxes, frameRate, distance)
        case Err(e) => Err(e)
        case Ok(speed) =>
          var rdt := RelativeDistanceTraveled(frameBoxes[0].value.1, frameBoxes[|frameBoxes| - 1].value.1);
          Ok(Car(ReduceLookups(map[], allFrameBoxes), frames[0].timeOffset, frames[|frames| - 1].timeOffset,
                 speed, rdt, index))
  }

  /** Which exception `_parse_annotation` raises: an offset without a number surfaces in the
      frame arithmetic, unless a pair before it goes back in time; frames that go back in time
      surface in `numpy.linspace`; a frame rate of 0 in the speed. */
  lemma RecordErrors(index: int, annotation: ObjectAnnotation, frameRate: int, distance: real)
    ensures var r := AnnotationRecord(index, annotation, frameRate, distance);
      !OffsetsParse(annotation.frames) ==> r == Err(MissingTimestamp) || r == Err(NegativeSteps)
    ensures var r := AnnotationRecord(index, annotation, frameRate, distance);
      OffsetsParse(annotation.frames) && !FramesInOrder(annotation.frames, frameRate) ==> r == Err(NegativeSteps)
    ensures var r := AnnotationRecord(index, annotation, frameRate, distance);
      frameRate == 0 && |annotation.frames| > 0 && OffsetsParse(annotation.frames) ==> r == Err(ZeroFrameRate)
  {
    var frames := annotation.frames;
    var frameBoxes := FrameBoxes(frames, frameRate);
    FrameBoxesParsed(frames, frameRate);
    InterpolateSucceeds(frameBoxes);
    InterpolateErrors(frameBoxes);
    if frameRate == 0 && OffsetsParse(frames) {
      forall i | 0 <= i < |frames| ensures frameBoxes[i].value.0 == 0 {
        assert frameBoxes[i] == FrameToBoxLookup(frames[i], 0);
      }
      assert FramesInOrder(frames, frameRate);
    }
  }

  /** The fields of a record: the verbatim offsets of the first and last raw frames, the index
      it was given, displacement and speed from the first and last raw samples, and the map
      built from the interpolated list. */
  lemma RecordFields(index: int, annotation: ObjectAnnotation, frameRate: int, distance: real)
    requires AnnotationRecord(index, annotation, frameRate, distance).Ok?
    ensures var car := AnnotationRecord(index, annotation, frameRate, distance).value;
      var frames := annotation.frames;
      var samples := FrameBoxes(frames, frameRate);
      && |frames| > 0 && samples[0].Some? && samples[|samples| - 1].Some? && frameRate != 0
      && car.entranceTime == frames[0].timeOffset
      && car.exitTime == frames[|frames| - 1].timeOffset
      && car.index == index
      && car.rdt == RelativeDistanceTraveled(BoxOf(frames[0].normalizedBoundingBox),
                                             BoxOf(frames[|frames| - 1].normalizedBoundingBox))
      && car.carSpeed == SpeedBetween(samples[0].value, samples[|samples| - 1].value, frameRate, distance)
      && car.boxes == ReduceLookups(map[], Interpolate(samples).value)
  {
  }

  /** Every offset of the object parses and the frame numbers strictly increase. */
  predicate FramesIncreasing(frames: seq<Frame>, frameRate: int) {
    AllParsed(FrameBoxes(frames, frameRate)) && Increasing(FrameBoxes(frames, frameRate))
  }

  /** A car seen at strictly increasing frames f0 < ... < fm (m >= 1) gets a record whose map
      covers exactly the frames f0 .. fm, holds each sampled box at its own frame, and the
      interpolated boxes in between. */
  lemma RecordTrajectory(index: int, annotation: ObjectAnnotation, frameRate: int, distance: real)
    requires |annotation.frames| >= 2 && frameRate != 0 && FramesIncreasing(annotation.frames, frameRate)
    ensures AnnotationRecord(index, annotation, frameRate, distance).Ok?
    ensures var car := AnnotationRecord(index, annotation, frameRate, distance).value;
      var samples := FrameBoxes(annotation.frames, frameRate);
      && KeysSpan(car.boxes, samples[0].value.0, samples[|samples| - 1].value.0)
      && (forall j :: 0 <= j < |samples| ==>
            samples[j].value.0 in car.boxes && car.boxes[samples[j].value.0] == samples[j].value.1)
      && InterpolatesUpTo(car.boxes, samples, |samples| - 1)
  {
    var samples := FrameBoxes(annotation.frames, frameRate);
    FrameBoxesParsed(annotation.frames, frameRate);
    assert FramesInOrder(annotation.frames, frameRate);
    RecordFields(index, annotation, frameRate, distance);
    DenseLookup(samples);
  }

  /** A car seen in a single frame gets a record with no box entries at all, no displacement
      and speed 0.0. */
  lemma SingleFrameRecord(index: int, annotation: ObjectAnnotation, frameRate: int, distance: real)
    requires |annotation.frames| == 1 && frameRate != 0 && StartsWithDigit(annotation.frames[0].timeOffset)
    ensures AnnotationRecord(index, annotation, frameRate, distance).Ok?
    ensures var car := AnnotationRecord(index, annotation, frameRate, distance).value;
      car.boxes == map[] && car.rdt == 0.0 && car.carSpeed == 0.0
  {
    var frames := annotation.frames;
    assert OffsetsParse(frames);
    FrameBoxesParsed(frames, frameRate);
    assert FramesInOrder(frames, frameRate);
    RecordFields(index, annotation, frameRate, distance);
  }

  /** `_parse_annotation` as the source runs it: interpolate, fold the lookup, then fill in the
      record keys. */
  method ParseAnnotation(index: int, annotation: ObjectAnnotation, frameRate: int, distance: real)
    returns (r: Result<Car>)
    ensures r == AnnotationRecord(index, annotation, frameRate, distance)
  {
    var frames := annotation.frames;
    var frameBoxes := FrameBoxes(frames, frameRate);
    var allFrameBoxes := AddMissingFrames(frameBoxes);
    if allFrameBoxes.Err? {
      return Err(allFrameBoxes.error);
    }
    var frameBoxLookup := BuildLookup(allFrameBoxes.value);
    if |frames| == 0 {
      return Err(NoFrames);
    }
    var entranceTime := frames[0].timeOffset;
    var exitTime := frames[|frames| - 1].timeOffset;
    var carSpeed := CalculateSpeed(frameBoxes, frameRate, distance);
    if carSpeed.Err? {
      return Err(carSpeed.error);
    }
    var rdt := RelativeDistanceTraveled(frameBoxes[0].value.1, frameBoxes[|frameBoxes| - 1].value.1);
    r := Ok(Car(frameBoxLookup, entranceTime, exitTime, carSpeed.value, rdt, index));
  }
}
