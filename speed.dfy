/** The speed estimate of one car: horizontal displacement over elapsed time. */
module Speed {
  import opened Wrappers
  import opened Geometry
  import opened Units
  import opened Interpolation

  /** Time between two frame numbers, each converted to seconds on its own as the source does. */
  function Elapsed(startFrame: int, endFrame: int, frameRate: int): (time: real)
    requires frameRate != 0
    ensures time * frameRate as real == (endFrame - startFrame) as real
  {
    FrameNumberToSeconds(endFrame, frameRate) - FrameNumberToSeconds(startFrame, frameRate)
  }

  /** At a positive frame rate time moves forward exactly when the frame number grows. */
  lemma ElapsedPositive(startFrame: int, endFrame: int, frameRate: int)
    requires frameRate > 0
    ensures Elapsed(startFrame, endFrame, frameRate) > 0.0 <==> startFrame < endFrame
  {
    ProductSign(Elapsed(startFrame, endFrame, frameRate), frameRate as real);
  }

  lemma ProductSign(a: real, b: real)
    requires b > 0.0
    ensures a * b > 0.0 <==> a > 0.0
  {
    if a > 0.0 {
      ProductOfPositives(a, b);
    } else if a < 0.0 {
      ProductOfPositives(-a, b);
    }
  }

  /** Metres per second: the metres covered by the horizontal displacement `rdt` of a frame
      that spans `distance` metres, over `time` seconds. */
  function MetresPerSecond(distance: real, rdt: real, time: real): (mps: real)
    requires rdt >= 0.0 && time > 0.0
    ensures mps * time == distance * rdt
    ensures distance >= 0.0 ==> mps >= 0.0
  {
    var actualDistanceTraveled := distance * rdt;
    MetresPerSecondSign(distance, rdt, time);
    actualDistanceTraveled / time
  }

  lemma MetresPerSecondSign(distance: real, rdt: real, time: real)
    requires rdt >= 0.0 && time > 0.0
    ensures distance >= 0.0 ==> distance * rdt / time >= 0.0
  {
    if distance >= 0.0 {
      NonNegativeQuotient(distance * rdt, time);
    }
  }

  /** The speed in km/h of a car sampled at `start` and later at `end`, within a rounding step
      of 3.6 times its metres per second; 0.0 when no time passes. */
  function SpeedBetween(start: Sample, end: Sample, frameRate: int, distance: real): (speed: real)
    requires frameRate != 0
    ensures var time := Elapsed(start.0, end.0, frameRate);
      && (time <= 0.0 ==> speed == 0.0)
      && (time > 0.0 ==>
            -0.005 <= speed - 3.6 * MetresPerSecond(distance, RelativeDistanceTraveled(start.1, end.1), time) <= 0.005)
      && (distance >= 0.0 ==> speed >= 0.0)
  {
    var time := Elapsed(start.0, end.0, frameRate);
    if time > 0.0 then
      MpsToKmh(MetresPerSecond(distance, RelativeDistanceTraveled(start.1, end.1), time))
    else
      0.0
  }

  /** `_calculate_speed`: the speed between the first and the last sample. An empty list fails
      `frames[0]`, a sample without a frame number fails the box lookup, and a frame rate of 0
      fails the division. */
  function CalculateSpeed(frames: seq<Option<Sample>>, frameRate: int, distance: real): (r: Result<real>)
    ensures |frames| == 0 ==> r == Err(NoFrames)
    ensures |frames| > 0 && (frames[0].None? || frames[|frames| - 1].None?) ==> r == Err(MissingTimestamp)
    ensures |frames| > 0 && frames[0].Some? && frames[|frames| - 1].Some? && frameRate == 0 ==> r == Err(ZeroFrameRate)
    ensures r.Ok? <==> |frames| > 0 && frames[0].Some? && frames[|frames| - 1].Some? && frameRate != 0
    ensures r.Ok? ==> r == Ok(SpeedBetween(frames[0].value, frames[|frames| - 1].value, frameRate, distance))
  {
    if |frames| == 0 then
      Err(NoFrames)
    else if frames[0].None? || frames[|frames| - 1].None? then
      Err(MissingTimestamp)
    else if frameRate == 0 then
      Err(ZeroFrameRate)
    else
      Ok(SpeedBetween(frames[0].value, frames[|frames| - 1].value, frameRate, distance))
  }

  lemma NonNegativeQuotient(a: real, b: real)
    requires a >= 0.0 && b > 0.0
    ensures a / b >= 0.0
  {
  }

  /** Only the first and last samples matter: the ones in between never change the speed. */
  lemma SpeedUsesEndpointsOnly(frames: seq<Option<Sample>>, frameRate: int, distance: real)
    requires |frames| > 0
    ensures CalculateSpeed(frames, frameRate, distance)
         == CalculateSpeed([frames[0], frames[|frames| - 1]], frameRate, distance)
  {
    var ends := [frames[0], frames[|frames| - 1]];
    assert ends[0] == frames[0] && ends[|ends| - 1] == frames[|frames| - 1];
  }

  /** At a positive frame rate a car whose last sample is not later than its first, such as a
      car seen in one frame only, has speed 0.0. */
  lemma NoTimeNoSpeed(frames: seq<Option<Sample>>, frameRate: int, distance: real)
    requires |frames| > 0 && frames[0].Some? && frames[|frames| - 1].Some? && frameRate > 0
    requires frames[|frames| - 1].value.0 <= frames[0].value.0
    ensures CalculateSpeed(frames, frameRate, distance) == Ok(0.0)
  {
    ElapsedPositive(frames[0].value.0, frames[|frames| - 1].value.0, frameRate);
  }

  /** At a positive frame rate and a forward-moving car the elapsed time is the frame count over
      the frame rate, so the metres per second times the frame count is the metres covered
      times the frame rate. */
  lemma SpeedFromFrameCount(distance: real, rdt: real, startFrame: int, endFrame: int, frameRate: int)
    requires rdt >= 0.0 && frameRate > 0 && startFrame < endFrame
    ensures Elapsed(startFrame, endFrame, frameRate) > 0.0
    ensures MetresPerSecond(distance, rdt, Elapsed(startFrame, endFrame, frameRate)) * (endFrame - startFrame) as real
         == distance * rdt * frameRate as real
  {
    ElapsedPositive(startFrame, endFrame, frameRate);
    var time := Elapsed(startFrame, endFrame, frameRate);
    var mps := MetresPerSecond(distance, rdt, time);
    var fr := frameRate as real;
    calc {
      mps * (endFrame - startFrame) as real;
      mps * (time * fr);
      (mps * time) * fr;
      distance * rdt * fr;
    }
  }
}
