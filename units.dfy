/** Conversions between seconds, frame numbers and speeds. */
module Units {

  /** Python's `int()` of a number: truncation toward zero. */
  function Trunc(x: real): (n: int)
    ensures x >= 0.0 ==> n as real <= x < n as real + 1.0
    ensures x < 0.0 ==> n as real - 1.0 < x <= n as real
  {
    if x >= 0.0 then x.Floor else -((-x).Floor)
  }

  /** `int(seconds * frame_rate)`: the frame being shown at the given time. */
  function SecondsToFrameNumber(seconds: real, frameRate: int): (n: int)
    ensures seconds >= 0.0 && frameRate >= 0 ==> 0 <= n && n as real <= seconds * frameRate as real < n as real + 1.0
    ensures seconds * frameRate as real >= 0.0 ==> n as real <= seconds * frameRate as real < n as real + 1.0
  {
    NonNegativeProduct(seconds, frameRate as real);
    Trunc(seconds * frameRate as real)
  }

  lemma NonNegativeProduct(a: real, b: real)
    ensures a >= 0.0 && b >= 0.0 ==> a * b >= 0.0
  {
    if a > 0.0 && b > 0.0 {
      assert a * b > 0.0 * b;
    }
  }

  /** `frame_number / frame_rate`: the time at which a frame starts. */
  function FrameNumberToSeconds(frameNumber: int, frameRate: int): (s: real)
    requires frameRate != 0
    ensures s * frameRate as real == frameNumber as real
  {
    frameNumber as real / frameRate as real
  }

  /** A frame's start time converts back to the same frame. */
  lemma FrameSecondsRoundTrip(frameNumber: int, frameRate: int)
    requires frameRate != 0
    ensures SecondsToFrameNumber(FrameNumberToSeconds(frameNumber, frameRate), frameRate) == frameNumber
  {
    var s := FrameNumberToSeconds(frameNumber, frameRate);
    assert s * frameRate as real == frameNumber as real;
  }

  /** A whole number of seconds lands exactly on frame seconds times frame rate. */
  lemma WholeSecondsFrame(seconds: int, frameRate: int)
    ensures SecondsToFrameNumber(seconds as real, frameRate) == seconds * frameRate
  {
    assert seconds as real * frameRate as real == (seconds * frameRate) as real;
  }

  /** A non-negative time lies in the interval of the frame it converts to. */
  lemma SecondsWithinFrame(seconds: real, frameRate: int)
    requires seconds >= 0.0 && frameRate > 0
    ensures var n := SecondsToFrameNumber(seconds, frameRate);
      FrameNumberToSeconds(n, frameRate) <= seconds < FrameNumberToSeconds(n + 1, frameRate)
  {
    var n := SecondsToFrameNumber(seconds, frameRate);
    var fr := frameRate as real;
    assert n as real <= seconds * fr < n as real + 1.0;
    assert n as real / fr <= seconds by {
      assert (n as real / fr) * fr == n as real;
    }
    assert seconds < (n + 1) as real / fr by {
      assert ((n + 1) as real / fr) * fr == (n + 1) as real;
    }
  }

  /** Round to the nearest integer, halves to the even neighbour (Python's `round`). */
  function RoundHalfEven(y: real): (n: int)
    ensures y - 0.5 <= n as real <= y + 0.5
    ensures (n as real - y == 0.5 || y - n as real == 0.5) ==> n % 2 == 0
  {
    var f := y.Floor;
    var d := y - f as real;
    if d < 0.5 then f
    else if d > 0.5 then f + 1
    else if f % 2 == 0 then f
    else f + 1
  }

  /** `round(x, 2)`: the nearest multiple of one hundredth, halves to even. */
  function RoundHundredths(x: real): (r: real)
    ensures -0.005 <= r - x <= 0.005
    ensures (r * 100.0).Floor as real == r * 100.0
  {
    RoundHalfEven(x * 100.0) as real / 100.0
  }

  /** `round(mps * 3.6, 2)`: metres per second to kilometres per hour, to two decimals. */
  function MpsToKmh(mps: real): (kmh: real)
    ensures -0.005 <= kmh - 3.6 * mps <= 0.005
    ensures mps >= 0.0 ==> kmh >= 0.0
    ensures (kmh * 100.0).Floor as real == kmh * 100.0
  {
    RoundHundredths(mps * 3.6)
  }

  /** One kilometre per hour, expressed in metres per second, converts back to 1.00. */
  lemma MpsToKmhUnit()
    ensures MpsToKmh(1.0 / 3.6) == 1.0
  {
    assert (1.0 / 3.6) * 3.6 * 100.0 == 100.0;
    assert RoundHalfEven(100.0) == 100;
  }
}
