/** Points in full-resolution pixel coordinates. */
module Geometry {

  import RealMath

  datatype Point = Point(x: real, y: real)

  /** Squared Euclidean distance between `p` and the point `(cx, cy)`. */
  function SqDist(p: Point, cx: real, cy: real): (d: real)
    ensures d >= 0.0
  {
    RealMath.SumOfSquares(p.x - cx, p.y - cy);
    (p.x - cx) * (p.x - cx) + (p.y - cy) * (p.y - cy)
  }

  /** The squared distance vanishes exactly at the point itself. */
  lemma SqDistPositive(p: Point, cx: real, cy: real)
    ensures p != Point(cx, cy) ==> SqDist(p, cx, cy) > 0.0
    ensures p == Point(cx, cy) ==> SqDist(p, cx, cy) == 0.0
  {
    if p != Point(cx, cy) {
      var dx, dy := p.x - cx, p.y - cy;
      assert dx != 0.0 || dy != 0.0;
      calc {
        SqDist(p, cx, cy);
      ==
        dx * dx + dy * dy;
      > { RealMath.SumOfSquares(dx, dy); }
        0.0;
      }
    }
  }
}
