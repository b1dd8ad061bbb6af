/** The radius-dependent rotation the fractal demo applies to every
    generated vertex (`Assignment1.rotateVertices`): a point at distance r
    from the origin turns by theta * r. `Math.cos`, `Math.sin` and
    `Math.sqrt` are not modelled; they are the parameters of `Trig`. */
module Swirl {

  datatype Point2 = Point2(x: real, y: real)

  datatype Trig = Trig(cos: real -> real, sin: real -> real, sqrt: real -> real)

  /** The angle a point turns by: `theta * sqrt(x^2 + y^2)`. */
  function TurnAngle(theta: real, trig: Trig, p: Point2): real {
    theta * trig.sqrt(p.x * p.x + p.y * p.y)
  }

  /** One vertex of the loop body: x' = x cos - y sin, y' = x sin + y cos. */
  function SwirlPoint(theta: real, trig: Trig, p: Point2): Point2 {
    var d := TurnAngle(theta, trig, p);
    Point2(p.x * trig.cos(d) - p.y * trig.sin(d), p.x * trig.sin(d) + p.y * trig.cos(d))
  }

  /** `rotateVertices`: rewrite every vertex in place, in order. The source
      walks the flat coordinate array two numbers at a time; here a vertex
      is one `Point2`, so the count of coordinates is twice `|r|`. With
      theta = 0, cos 0 = 1 and sin 0 = 0, every vertex is left as it was. */
  method RotateVertices(theta: real, trig: Trig, vertices: seq<Point2>) returns (r: seq<Point2>)
    ensures |r| == |vertices|
    ensures forall i :: 0 <= i < |r| ==> r[i] == SwirlPoint(theta, trig, vertices[i])
    ensures theta == 0.0 && trig.cos(0.0) == 1.0 && trig.sin(0.0) == 0.0 ==> r == vertices
  {
    r := vertices;
    var i := 0;
    while i < |r|
      invariant 0 <= i <= |r| == |vertices|
      invariant forall k :: 0 <= k < i ==> r[k] == SwirlPoint(theta, trig, vertices[k])
      invariant forall k :: i <= k < |r| ==> r[k] == vertices[k]
    {
      r := r[i := SwirlPoint(theta, trig, r[i])];
      i := i + 1;
    }
    if theta == 0.0 && trig.cos(0.0) == 1.0 && trig.sin(0.0) == 0.0 {
      forall k | 0 <= k < |r| ensures r[k] == vertices[k] {
        SwirlZero(trig, vertices[k]);
      }
    }
  }

  lemma SwirlZero(trig: Trig, p: Point2)
    requires trig.cos(0.0) == 1.0 && trig.sin(0.0) == 0.0
    ensures SwirlPoint(0.0, trig, p) == p
  {
    assert TurnAngle(0.0, trig, p) == 0.0;
  }

  /** The origin does not move, whatever the angle and the trigonometry. */
  lemma SwirlFixesOrigin(theta: real, trig: Trig)
    ensures SwirlPoint(theta, trig, Point2(0.0, 0.0)) == Point2(0.0, 0.0)
  {
  }

  /** Where cos^2 + sin^2 = 1 holds at the point's turn angle, the swirl is
      a rotation: the point keeps its distance from the origin. */
  lemma SwirlKeepsRadius(theta: real, trig: Trig, p: Point2)
    requires var d := TurnAngle(theta, trig, p);
             trig.cos(d) * trig.cos(d) + trig.sin(d) * trig.sin(d) == 1.0
    ensures var q := SwirlPoint(theta, trig, p);
            q.x * q.x + q.y * q.y == p.x * p.x + p.y * p.y
  {
    var d := TurnAngle(theta, trig, p);
    var c, s := trig.cos(d), trig.sin(d);
    assert (p.x * c - p.y * s) * (p.x * c - p.y * s) + (p.x * s + p.y * c) * (p.x * s + p.y * c)
        == (p.x * p.x + p.y * p.y) * (c * c + s * s);
  }
}
