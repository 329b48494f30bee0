/** Linear interpolation of the bounding boxes of the frames between two annotated samples. */
module Interpolation {
  import opened Wrappers
  import opened Geometry

  /** A frame number with the box annotated in that frame. */
  type Sample = (int, Box)

  /** The point `k / n` of the way from `a` to `b`. */
  function Lerp(a: real, b: real, k: int, n: int): real
    requires n != 0
  {
    a + (b - a) * (k as real) / (n as real)
  }

  /** Every coordinate interpolated independently. */
  function LerpBox(a: Box, b: Box, k: int, n: int): Box
    requires n != 0
  {
    Box(Lerp(a.left, b.left, k, n), Lerp(a.top, b.top, k, n),
        Lerp(a.right, b.right, k, n), Lerp(a.bottom, b.bottom, k, n))
  }

  lemma LerpEnds(a: real, b: real, n: int)
    requires n != 0
    ensures Lerp(a, b, 0, n) == a && Lerp(a, b, n, n) == b
  {
    assert (b - a) * (n as real) / (n as real) == b - a;
  }

  lemma LerpBoxEnds(a: Box, b: Box, n: int)
    requires n != 0
    ensures LerpBox(a, b, 0, n) == a && LerpBox(a, b, n, n) == b
  {
    LerpEnds(a.left, b.left, n);
    LerpEnds(a.top, b.top, n);
    LerpEnds(a.right, b.right, n);
    LerpEnds(a.bottom, b.bottom, n);
  }

  /** `numpy.linspace(start, stop, num=num, endpoint=False)`: `num` evenly spaced points
      that start at `start` and stop short of `stop`. */
  function Linspace(start: real, stop: real, num: nat): (xs: seq<real>)
    ensures |xs| == num
    ensures forall k :: 0 <= k < num ==> xs[k] == Lerp(start, stop, k, num)
  {
    seq(num, k requires 0 <= k < num => k as real * ((stop - start) / num as real) + start)
  }

  /** `linspace(...)[1:]`: the points strictly after the start. */
  function StepCoords(start: real, stop: real, steps: nat): (xs: seq<real>)
    ensures |xs| == if steps == 0 then 0 else steps - 1
    ensures forall i :: 0 <= i < |xs| ==> xs[i] == Lerp(start, stop, i + 1, steps)
  {
    var all := Linspace(start, stop, steps);
    if |all| == 0 then [] else all[1..]
  }

  /** `_generate_bounding_boxes`: the `steps - 1` boxes strictly between two boxes, box i being
      `(i + 1) / steps` of the way; none for 0 or 1 steps, and an error for negative steps. */
  function GenerateBoundingBoxes(startBb: Box, endBb: Box, steps: int): (r: Result<seq<Box>>)
    ensures r.Ok? <==> steps >= 0
    ensures r.Err? ==> r.error == NegativeSteps
    ensures r.Ok? ==> |r.value| == (if steps == 0 then 0 else steps - 1)
    ensures r.Ok? ==> forall i :: 0 <= i < |r.value| ==> r.value[i] == LerpBox(startBb, endBb, i + 1, steps)
  {
    if steps < 0 then
      Err(NegativeSteps)
    else
      var lefts := StepCoords(startBb.left, endBb.left, steps);
      var tops := StepCoords(startBb.top, endBb.top, steps);
      var rights := StepCoords(startBb.right, endBb.right, steps);
      var bottoms := StepCoords(startBb.bottom, endBb.bottom, steps);
      Ok(seq(|lefts|, i requires 0 <= i < |lefts| => Box(lefts[i], tops[i], rights[i], bottoms[i])))
  }

  /** Between two equal boxes every generated box is that box. */
  lemma GenerateBetweenEqualBoxes(b: Box, steps: int)
    requires steps >= 0
    ensures forall i :: 0 <= i < |GenerateBoundingBoxes(b, b, steps).value| ==>
      GenerateBoundingBoxes(b, b, steps).value[i] == b
  {
  }

  /** Consecutive generated boxes differ by the same amount, `(end - start) / steps`, in each coordinate. */
  lemma GenerateEvenlySpaced(startBb: Box, endBb: Box, steps: int, i: nat)
    requires steps >= 0
    requires i + 1 < |GenerateBoundingBoxes(startBb, endBb, steps).value|
    ensures var boxes := GenerateBoundingBoxes(startBb, endBb, steps).value;
      && boxes[i + 1].left - boxes[i].left == (endBb.left - startBb.left) / steps as real
      && boxes[i + 1].top - boxes[i].top == (endBb.top - startBb.top) / steps as real
      && boxes[i + 1].right - boxes[i].right == (endBb.right - startBb.right) / steps as real
      && boxes[i + 1].bottom - boxes[i].bottom == (endBb.bottom - startBb.bottom) / steps as real
  {
    LerpStep(startBb.left, endBb.left, i + 1, steps);
    LerpStep(startBb.top, endBb.top, i + 1, steps);
    LerpStep(startBb.right, endBb.right, i + 1, steps);
    LerpStep(startBb.bottom, endBb.bottom, i + 1, steps);
  }

  lemma LerpStep(a: real, b: real, k: int, n: int)
    requires n != 0
    ensures Lerp(a, b, k + 1, n) - Lerp(a, b, k, n) == (b - a) / n as real
  {
    assert (b - a) * ((k + 1) as real) == (b - a) * (k as real) + (b - a);
  }

  /** `enumerate(boxes, start=start)`. */
  function Enumerate(boxes: seq<Box>, start: int): (samples: seq<Sample>)
    ensures |samples| == |boxes|
    ensures forall i :: 0 <= i < |boxes| ==> samples[i] == (start + i, boxes[i])
  {
    seq(|boxes|, i requires 0 <= i < |boxes| => (start + i, boxes[i]))
  }

  /** `_pairwise`: s0, s1, s2, ... becomes (s0, s1), (s1, s2), ... */
  function Pairwise<T>(s: seq<T>): (pairs: seq<(T, T)>)
    ensures |pairs| == if |s| == 0 then 0 else |s| - 1
    ensures forall i :: 0 <= i < |pairs| ==> pairs[i] == (s[i], s[i + 1])
  {
    if |s| < 2 then [] else [(s[0], s[1])] + Pairwise(s[1..])
  }

  /** What one pair contributes to `all_frames`: the start sample, the generated boxes numbered
      from the start frame plus one, and the end sample. A missing frame number fails the
      subtraction; a pair that goes back in time fails `numpy.linspace`. */
  function Segment(start: Option<Sample>, end: Option<Sample>): (r: Result<seq<Sample>>)
    ensures r.Ok? <==> start.Some? && end.Some? && start.value.0 <= end.value.0
    ensures start.None? || end.None? ==> r == Err(MissingTimestamp)
    ensures start.Some? && end.Some? && start.value.0 > end.value.0 ==> r == Err(NegativeSteps)
  {
    if start.None? || end.None? then
      Err(MissingTimestamp)
    else
      var (startIndex, startBb) := start.value;
      var (endIndex, endBb) := end.value;
      match GenerateBoundingBoxes(startBb, endBb, endIndex - startIndex)
      case Err(e) => Err(e)
      case Ok(missingBbs) => Ok([start.value] + Enumerate(missingBbs, startIndex + 1) + [end.value])
  }

  /** A segment opens with the start sample and closes with the end sample; in between, frame
      `start + t` holds the box `t / steps` of the way from the start box to the end box. */
  lemma SegmentContents(start: Sample, end: Sample)
    requires start.0 <= end.0
    ensures var seg := Segment(Some(start), Some(end)).value;
      && |seg| == (if start.0 == end.0 then 2 else end.0 - start.0 + 1)
      && seg[0] == start && seg[|seg| - 1] == end
      && forall t :: 0 < t < |seg| - 1 ==> seg[t] == (start.0 + t, LerpBox(start.1, end.1, t, end.0 - start.0))
  {
    var steps := end.0 - start.0;
    var missing := GenerateBoundingBoxes(start.1, end.1, steps).value;
    var between := Enumerate(missing, start.0 + 1);
    var seg := [start] + between + [end];
    SegmentUnfolds(start, end, missing);
    forall t | 0 < t < |seg| - 1
      ensures seg[t] == (start.0 + t, LerpBox(start.1, end.1, t, steps))
    {
      assert seg[t] == between[t - 1];
    }
  }

  /** Frames `start.0 .. end.0` in order, frame `start.0 + t` holding the box `t / steps` of the
      way from the start box to the end box. */
  predicate LerpRun(seg: seq<Sample>, start: Sample, end: Sample)
    requires start.0 < end.0
  {
    && |seg| == end.0 - start.0 + 1
    && forall t :: 0 <= t < |seg| ==> seg[t] == (start.0 + t, LerpBox(start.1, end.1, t, end.0 - start.0))
  }

  /** For a pair that moves forward in time the segment numbers every frame from start to end,
      each box the matching fraction of the way between the two sampled boxes. */
  lemma SegmentForward(start: Sample, end: Sample)
    requires start.0 < end.0
    ensures Segment(Some(start), Some(end)).Ok?
    ensures LerpRun(Segment(Some(start), Some(end)).value, start, end)
  {
    SegmentContents(start, end);
    LerpBoxEnds(start.1, end.1, end.0 - start.0);
  }

  /** Both samples of the pair parsed and the frame number does not go back: the pairs whose
      segment exists. */
  predicate InOrder(pair: (Option<Sample>, Option<Sample>)) {
    pair.0.Some? && pair.1.Some? && pair.0.value.0 <= pair.1.value.0
  }

  /** The exception a pair that is not in order raises first. */
  function PairError(pair: (Option<Sample>, Option<Sample>)): Failure {
    if pair.0.None? || pair.1.None? then MissingTimestamp else NegativeSteps
  }

  /** Pair i is the first pair that is not in order, and it raises e. */
  predicate FailsFirstAt(pairs: seq<(Option<Sample>, Option<Sample>)>, i: int, e: Failure) {
    && 0 <= i < |pairs|
    && !InOrder(pairs[i]) && e == PairError(pairs[i])
    && forall k :: 0 <= k < i ==> InOrder(pairs[k])
  }

  /** The segments of the pairs, concatenated in order; the first failing pair decides the error. */
  function InterpolatePairs(pairs: seq<(Option<Sample>, Option<Sample>)>): (r: Result<seq<Sample>>)
    ensures |pairs| == 0 ==> r == Ok([])
    ensures r.Ok? ==> forall k :: 0 <= k < |pairs| ==> InOrder(pairs[k])
    ensures r.Err? ==> exists i :: FailsFirstAt(pairs, i, r.error)
  {
    if |pairs| == 0 then
      Ok([])
    else
      var init := pairs[..|pairs| - 1];
      match InterpolatePairs(init)
      case Err(e) =>
        var i :| FailsFirstAt(init, i, e);
        assert FailsFirstAt(pairs, i, e);
        Err(e)
      case Ok(done) =>
        match Segment(pairs[|pairs| - 1].0, pairs[|pairs| - 1].1)
        case Err(e) =>
          assert forall k :: 0 <= k < |init| ==> init[k] == pairs[k];
          assert FailsFirstAt(pairs, |pairs| - 1, e);
          Err(e)
        case Ok(segment) =>
          assert forall k :: 0 <= k < |init| ==> init[k] == pairs[k];
          Ok(done + segment)
  }

  /** The value `_add_missing_frames` computes. Fewer than two samples give no frames at all. */
  function Interpolate(frames: seq<Option<Sample>>): (r: Result<seq<Sample>>)
    ensures |frames| <= 1 ==> r == Ok([])
  {
    InterpolatePairs(Pairwise(frames))
  }

  /** `_add_missing_frames`: grows `all_frames` pair by pair. */
  method AddMissingFrames(frames: seq<Option<Sample>>) returns (r: Result<seq<Sample>>)
    ensures r == Interpolate(frames)
  {
    var framePairs := Pairwise(frames);
    var allFrames: seq<Sample> := [];
    var i := 0;
    while i < |framePairs|
      invariant 0 <= i <= |framePairs|
      invariant InterpolatePairs(framePairs[..i]) == Ok(allFrames)
    {
      var next := AppendPair(allFrames, framePairs[i].0, framePairs[i].1);
      if next.Err? {
        PairFails(framePairs, i, allFrames);
        return next;
      }
      PairSucceeds(framePairs, i, allFrames, Segment(framePairs[i].0, framePairs[i].1).value);
      allFrames := next.value;
      i := i + 1;
    }
    assert framePairs[..|framePairs|] == framePairs;
    r := Ok(allFrames);
  }

  /** One pass of the loop body: append the start sample, the generated boxes numbered from
      the start frame plus one, and the end sample; or fail as the pair's segment does. */
  method AppendPair(allFrames: seq<Sample>, start: Option<Sample>, end: Option<Sample>)
    returns (r: Result<seq<Sample>>)
    ensures Segment(start, end).Err? ==> r == Err(Segment(start, end).error)
    ensures Segment(start, end).Ok? ==> r == Ok(allFrames + Segment(start, end).value)
  {
    if start.None? || end.None? {
      // `end_index - start_index` on a missing frame number
      return Err(MissingTimestamp);
    }
    var startIndex, startBb := start.value.0, start.value.1;
    var endIndex, endBb := end.value.0, end.value.1;
    var steps := endIndex - startIndex;
    var missingBbs := GenerateBoundingBoxes(startBb, endBb, steps);
    if missingBbs.Err? {
      return Err(missingBbs.error);
    }
    var missingFrames := Enumerate(missingBbs.value, startIndex + 1);
    SegmentUnfolds(start.value, end.value, missingBbs.value);
    r := Ok(allFrames + ([start.value] + missingFrames + [end.value]));
  }

  lemma SegmentUnfolds(start: Sample, end: Sample, missingBbs: seq<Box>)
    requires GenerateBoundingBoxes(start.1, end.1, end.0 - start.0) == Ok(missingBbs)
    ensures Segment(Some(start), Some(end)) == Ok([start] + Enumerate(missingBbs, start.0 + 1) + [end])
  {
  }

  lemma PairSucceeds(pairs: seq<(Option<Sample>, Option<Sample>)>, i: nat, done: seq<Sample>, segment: seq<Sample>)
    requires i < |pairs| && InterpolatePairs(pairs[..i]) == Ok(done)
    requires Segment(pairs[i].0, pairs[i].1) == Ok(segment)
    ensures InterpolatePairs(pairs[..i + 1]) == Ok(done + segment)
  {
    assert pairs[..i + 1][..i] == pairs[..i];
  }

  lemma PairFails(pairs: seq<(Option<Sample>, Option<Sample>)>, i: nat, done: seq<Sample>)
    requires i < |pairs| && InterpolatePairs(pairs[..i]) == Ok(done)
    requires Segment(pairs[i].0, pairs[i].1).Err?
    ensures InterpolatePairs(pairs) == Segment(pairs[i].0, pairs[i].1)
  {
    assert pairs[..i + 1][..i] == pairs[..i];
    FailureIsFinal(pairs, i + 1);
  }

  /** Once a prefix of the pairs fails, the whole list fails with the same error. */
  lemma {:induction false} FailureIsFinal(pairs: seq<(Option<Sample>, Option<Sample>)>, n: nat)
    requires n <= |pairs| && InterpolatePairs(pairs[..n]).Err?
    ensures InterpolatePairs(pairs) == InterpolatePairs(pairs[..n])
    decreases |pairs| - n
  {
    if n < |pairs| {
      assert pairs[..n + 1][..n] == pairs[..n];
      FailureIsFinal(pairs, n + 1);
    } else {
      assert pairs[..n] == pairs;
    }
  }

  /** The pairs succeed exactly when every segment does. */
  lemma {:induction false} InterpolatePairsSucceeds(pairs: seq<(Option<Sample>, Option<Sample>)>)
    ensures InterpolatePairs(pairs).Ok? <==> forall j :: 0 <= j < |pairs| ==> Segment(pairs[j].0, pairs[j].1).Ok?
  {
    if |pairs| > 0 {
      var init := pairs[..|pairs| - 1];
      InterpolatePairsSucceeds(init);
      assert forall j :: 0 <= j < |init| ==> init[j] == pairs[j];
    }
  }

  predicate AllParsed(frames: seq<Option<Sample>>) {
    forall i :: 0 <= i < |frames| ==> frames[i].Some?
  }

  predicate NonDecreasing(frames: seq<Option<Sample>>)
    requires AllParsed(frames)
  {
    forall i :: 0 <= i < |frames| - 1 ==> frames[i].value.0 <= frames[i + 1].value.0
  }

  predicate Increasing(frames: seq<Option<Sample>>)
    requires AllParsed(frames)
  {
    forall i, j :: 0 <= i < j < |frames| ==> frames[i].value.0 < frames[j].value.0
  }

  /** `_add_missing_frames` returns normally exactly when there are fewer than two samples, or
      every sample has a frame number and the numbers never decrease. */
  lemma InterpolateSucceeds(frames: seq<Option<Sample>>)
    ensures Interpolate(frames).Ok? <==> |frames| <= 1 || (AllParsed(frames) && NonDecreasing(frames))
  {
    var pairs := Pairwise(frames);
    InterpolatePairsSucceeds(pairs);
    if |frames| >= 2 {
      if Interpolate(frames).Ok? {
        forall j | 0 <= j < |frames| - 1 ensures Segment(frames[j], frames[j + 1]).Ok? {
          assert pairs[j] == (frames[j], frames[j + 1]);
        }
        SucceedingFramesAreOrdered(frames);
      } else if AllParsed(frames) && NonDecreasing(frames) {
        OrderedFramesSucceed(frames);
        forall j | 0 <= j < |pairs| ensures Segment(pairs[j].0, pairs[j].1).Ok? {
          assert pairs[j] == (frames[j], frames[j + 1]);
        }
      }
    }
  }

  lemma SucceedingFramesAreOrdered(frames: seq<Option<Sample>>)
    requires |frames| >= 2
    requires forall j :: 0 <= j < |frames| - 1 ==> Segment(frames[j], frames[j + 1]).Ok?
    ensures AllParsed(frames) && NonDecreasing(frames)
  {
    forall i | 0 <= i < |frames| ensures frames[i].Some? {
      var j := if i < |frames| - 1 then i else i - 1;
      assert Segment(frames[j], frames[j + 1]).Ok?;
    }
  }

  lemma OrderedFramesSucceed(frames: seq<Option<Sample>>)
    requires AllParsed(frames) && NonDecreasing(frames)
    ensures forall j :: 0 <= j < |frames| - 1 ==> Segment(frames[j], frames[j + 1]).Ok?
  {
  }

  /** With strictly increasing frame numbers the first n pairs give one entry per frame from the
      first sample to sample n, plus one repeated entry for each interior sample. */
  lemma {:induction false} InterpolatePrefixLength(frames: seq<Option<Sample>>, n: nat)
    requires AllParsed(frames) && Increasing(frames)
    requires n < |frames|
    ensures InterpolatePairs(Pairwise(frames)[..n]).Ok?
    ensures |InterpolatePairs(Pairwise(frames)[..n]).value|
         == if n == 0 then 0 else frames[n].value.0 - frames[0].value.0 + n
  {
    if n > 0 {
      var pairs := Pairwise(frames);
      assert pairs[..n][..n - 1] == pairs[..n - 1];
      InterpolatePrefixLength(frames, n - 1);
      SegmentForward(frames[n - 1].value, frames[n].value);
    }
  }

  /** With strictly increasing frame numbers i0 < ... < im, the list has
      `(im - i0) + m` entries: each pair (a, b) contributes `b - a + 1`. */
  lemma InterpolateLength(frames: seq<Option<Sample>>)
    requires |frames| >= 2 && AllParsed(frames) && Increasing(frames)
    ensures Interpolate(frames).Ok?
    ensures |Interpolate(frames).value| == frames[|frames| - 1].value.0 - frames[0].value.0 + |frames| - 1
  {
    var pairs := Pairwise(frames);
    InterpolatePrefixLength(frames, |frames| - 1);
    assert pairs[..|frames| - 1] == pairs;
  }

  /** `_add_missing_frames` fails only in the subtraction or in `numpy.linspace`; when every
      sample has a frame number, only `numpy.linspace` can fail. */
  lemma {:induction false} InterpolatePairsErrors(pairs: seq<(Option<Sample>, Option<Sample>)>)
    ensures InterpolatePairs(pairs).Err? ==>
      InterpolatePairs(pairs).error == MissingTimestamp || InterpolatePairs(pairs).error == NegativeSteps
    ensures (forall j :: 0 <= j < |pairs| ==> pairs[j].0.Some? && pairs[j].1.Some?) && InterpolatePairs(pairs).Err? ==>
      InterpolatePairs(pairs).error == NegativeSteps
  {
    if |pairs| > 0 {
      var init := pairs[..|pairs| - 1];
      assert forall j :: 0 <= j < |init| ==> init[j] == pairs[j];
      InterpolatePairsErrors(init);
    }
  }

  lemma InterpolateErrors(frames: seq<Option<Sample>>)
    ensures Interpolate(frames).Err? ==>
      Interpolate(frames).error == MissingTimestamp || Interpolate(frames).error == NegativeSteps
    ensures AllParsed(frames) && Interpolate(frames).Err? ==> Interpolate(frames).error == NegativeSteps
  {
    var pairs := Pairwise(frames);
    assert Interpolate(frames) == InterpolatePairs(pairs);
    InterpolatePairsErrors(pairs);
    if AllParsed(frames) {
      forall j | 0 <= j < |pairs| ensures pairs[j].0.Some? && pairs[j].1.Some? {
        assert pairs[j] == (frames[j], frames[j + 1]);
      }
    }
  }

  /** The list built from the first n pairs opens the list built from all of them. */
  lemma {:induction false} InterpolatePairsPrefix(pairs: seq<(Option<Sample>, Option<Sample>)>, n: nat)
    requires n <= |pairs| && InterpolatePairs(pairs).Ok?
    ensures InterpolatePairs(pairs[..n]).Ok?
    ensures InterpolatePairs(pairs[..n]).value <= InterpolatePairs(pairs).value
  {
    if n < |pairs| {
      var init := pairs[..|pairs| - 1];
      assert init[..n] == pairs[..n];
      InterpolatePairsPrefix(init, n);
    } else {
      assert pairs[..n] == pairs;
    }
  }

  /** A segment has at least two samples, opening with the start and closing with the end. */
  lemma SegmentEnds(start: Sample, end: Sample)
    requires start.0 <= end.0
    ensures var seg := Segment(Some(start), Some(end)).value;
      |seg| >= 2 && seg[0] == start && seg[|seg| - 1] == end
  {
    SegmentContents(start, end);
  }

  /** Positions p and p + 1 of s both hold x. */
  predicate RepeatsAt(s: seq<Sample>, p: int, x: Sample) {
    0 <= p < |s| - 1 && s[p] == x && s[p + 1] == x
  }

  /** Where pair i - 1 ends at the sample pair i starts from, that sample appears twice in a
      row in the interpolated list: last in the list of the first i pairs, as pair i - 1's end,
      and right after it, as pair i's start. */
  lemma {:induction false} AdjacentPairsMeet(pairs: seq<(Option<Sample>, Option<Sample>)>, i: nat)
    requires 0 < i < |pairs| && InterpolatePairs(pairs).Ok?
    requires pairs[i - 1].1 == pairs[i].0
    ensures pairs[i].0.Some? && InterpolatePairs(pairs[..i]).Ok?
    ensures RepeatsAt(InterpolatePairs(pairs).value, |InterpolatePairs(pairs[..i]).value| - 1, pairs[i].0.value)
  {
    InterpolatePairsSucceeds(pairs);
    assert Segment(pairs[i - 1].0, pairs[i - 1].1).Ok? && Segment(pairs[i].0, pairs[i].1).Ok?;
    var all := InterpolatePairs(pairs).value;
    InterpolatePairsPrefix(pairs, i - 1);
    InterpolatePairsPrefix(pairs, i + 1);
    var early := InterpolatePairs(pairs[..i - 1]).value;
    SegmentEnds(pairs[i - 1].0.value, pairs[i - 1].1.value);
    SegmentEnds(pairs[i].0.value, pairs[i].1.value);
    var previous := Segment(pairs[i - 1].0, pairs[i - 1].1).value;
    var next := Segment(pairs[i].0, pairs[i].1).value;
    PairSucceeds(pairs, i - 1, early, previous);
    PairSucceeds(pairs, i, early + previous, next);
    var through := early + previous + next;
    assert InterpolatePairs(pairs[..i + 1]).value == through;
    var p := |early| + |previous| - 1;
    assert p == |InterpolatePairs(pairs[..i]).value| - 1;
    assert all[p] == through[p] == previous[|previous| - 1];
    assert all[p + 1] == through[p + 1] == next[0];
  }

  /** Each pair contributes both of its samples, so a sample between the first and the last
      appears twice in a row (at the seam between pair j - 1 and pair j, as AdjacentPairsMeet
      locates it). */
  lemma InteriorSampleTwice(frames: seq<Option<Sample>>, j: nat)
    requires AllParsed(frames) && NonDecreasing(frames)
    requires 0 < j < |frames| - 1
    ensures Interpolate(frames).Ok?
    ensures exists p :: RepeatsAt(Interpolate(frames).value, p, frames[j].value)
  {
    InterpolateSucceeds(frames);
    var pairs := Pairwise(frames);
    assert pairs[j - 1] == (frames[j - 1], frames[j]) && pairs[j] == (frames[j], frames[j + 1]);
    AdjacentPairsMeet(pairs, j);
    assert Interpolate(frames) == InterpolatePairs(pairs);
  }
}
