/** Midpoints, centroids and horizontal displacement of normalised bounding boxes. */
module Geometry {

  /** A bounding box normalised to the frame; `_to_bb` is this constructor. */
  datatype Box = Box(left: real, top: real, right: real, bottom: real)

  /** Every coordinate of the box lies within the frame. */
  predicate InFrame(b: Box) {
    0.0 <= b.left <= 1.0 && 0.0 <= b.right <= 1.0 && 0.0 <= b.top <= 1.0 && 0.0 <= b.bottom <= 1.0
  }

  /** The point halfway between `start` and `end`. */
  function LineMidpoint(start: real, end: real): (m: real)
    ensures m - start == end - m
    ensures start <= end ==> start <= m <= end
  {
    (start + end) / 2.0
  }

  /** The centre of a box: equidistant from left and right, and from top and bottom. */
  function BbCentroid(bb: Box): (c: (real, real))
    ensures c.0 - bb.left == bb.right - c.0
    ensures c.1 - bb.top == bb.bottom - c.1
  {
    (LineMidpoint(bb.left, bb.right), LineMidpoint(bb.top, bb.bottom))
  }

  /** `sqrt((x2 - x1) ** 2)`: the non-negative number whose square is the squared difference. */
  function AbsDistance(x1: real, x2: real): (d: real)
    ensures d >= 0.0
    ensures d * d == (x2 - x1) * (x2 - x1)
  {
    if x1 <= x2 then x2 - x1 else x1 - x2
  }

  /** The square root is unique, so AbsDistance is exactly the source's square root of the square. */
  lemma AbsDistanceIsSqrt(x1: real, x2: real, d: real)
    requires d >= 0.0 && d * d == (x2 - x1) * (x2 - x1)
    ensures d == AbsDistance(x1, x2)
  {
    var e := AbsDistance(x1, x2);
    assert e * e == d * d;
    if d > e {
      SquareStrictlyMonotone(e, d);
    } else if d < e {
      SquareStrictlyMonotone(d, e);
    }
  }

  lemma SquareStrictlyMonotone(smaller: real, larger: real)
    requires 0.0 <= smaller < larger
    ensures smaller * smaller < larger * larger
  {
    ProductOfPositives(larger - smaller, larger + smaller);
  }

  lemma ProductOfPositives(a: real, b: real)
    requires a > 0.0 && b > 0.0
    ensures a * b > 0.0
  {
  }

  lemma AbsDistanceSymmetric(x1: real, x2: real)
    ensures AbsDistance(x1, x2) == AbsDistance(x2, x1)
  {
  }

  /** Horizontal centroid displacement between two boxes: half the change of `left + right`. */
  function RelativeDistanceTraveled(bbStart: Box, bbEnd: Box): (rdt: real)
    ensures rdt >= 0.0
    ensures 2.0 * rdt == (bbEnd.left + bbEnd.right) - (bbStart.left + bbStart.right)
         || 2.0 * rdt == (bbStart.left + bbStart.right) - (bbEnd.left + bbEnd.right)
  {
    var startCentroid := BbCentroid(bbStart);
    var endCentroid := BbCentroid(bbEnd);
    AbsDistance(startCentroid.0, endCentroid.0)
  }

  lemma RdtSymmetric(a: Box, b: Box)
    ensures RelativeDistanceTraveled(a, b) == RelativeDistanceTraveled(b, a)
  {
  }

  /** Vertical motion never contributes: only `left` and `right` matter. */
  lemma RdtIgnoresVertical(a: Box, b: Box, a': Box, b': Box)
    requires a.left == a'.left && a.right == a'.right
    requires b.left == b'.left && b.right == b'.right
    ensures RelativeDistanceTraveled(a, b) == RelativeDistanceTraveled(a', b')
  {
  }

  /** Between boxes inside the frame the displacement is at most the frame width. */
  lemma RdtAtMostFrameWidth(a: Box, b: Box)
    requires InFrame(a) && InFrame(b)
    ensures RelativeDistanceTraveled(a, b) <= 1.0
  {
  }
}
