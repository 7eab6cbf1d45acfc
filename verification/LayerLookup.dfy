/** Looking a point of the scene's image up in a layer's image, there and back. */
module LayerLookup {
  import opened Options
  import opened Rotations
  import opened LayerCompose
  import opened LayerPlacement

  datatype Point = Point(u: real, v: real)

  predicate OnImage(p: Point) {
    0.0 <= p.u <= 1.0 && 0.0 <= p.v <= 1.0
  }

  /** The direction in which an eye sees the point (x, y) of its image. */
  function Ray(eye: Tangents, x: real, y: real): Vec3 {
    Vec3(eye.left + (eye.right - eye.left) * x, eye.up + (eye.down - eye.up) * y, -1.0)
  }

  /** The point of an eye image that a ray in front of the eye goes through. */
  function PointOf(eye: Tangents, r: Vec3): Point
    requires Proper(eye) && r.z < 0.0
  {
    var px, py := r.x / -r.z, r.y / -r.z;
    Point((px - eye.left) / (eye.right - eye.left), (eye.up - py) / (eye.up - eye.down))
  }

  /** Where a turned ray meets the image; nowhere at or behind the eye plane. */
  function Seen(turn: Mat3, eye: Tangents, x: real, y: real): Option<Point>
    requires Proper(eye)
  {
    var r := Apply(turn, Ray(eye, x, y));
    if r.z > -NEAR_PLANE then None else Some(PointOf(eye, r))
  }

  /** The layer's point for a scene point, left unset behind the eye plane; false when off the image. */
  method LayerPoint(p: Placement, eye: Tangents, x: real, y: real) returns (hit: bool, point: Option<Point>)
    requires Proper(eye)
    ensures point == Seen(p.rotation, eye, x, y)
    ensures hit == (point.Some? && OnImage(point.value))
  {
    var r := new real[3];
    Turned(p.rotation, Ray(eye, x, y), r);
    if r[2] > -NEAR_PLANE {
      return false, None;
    }
    var px := r[0] / -r[2];
    var py := r[1] / -r[2];
    var u := (px - eye.left) / (eye.right - eye.left);
    var v := (eye.up - py) / (eye.up - eye.down);
    point := Some(Point(u, v));
    hit := u >= 0.0 && u <= 1.0 && v >= 0.0 && v <= 1.0;
  }

  method Turned(m: Mat3, d: Vec3, r: array<real>)
    requires r.Length == 3
    modifies r
    ensures Vec3(r[0], r[1], r[2]) == Apply(m, d)
  {
    for i := 0 to 3
      invariant i > 0 ==> r[0] == Dot(m.r0, d)
      invariant i > 1 ==> r[1] == Dot(m.r1, d)
      invariant i > 2 ==> r[2] == Dot(m.r2, d)
    {
      r[i] := m.At(i, 0) * d.x + m.At(i, 1) * d.y + m.At(i, 2) * d.z;
    }
  }

  // ---- rays and points ----

  lemma Stretch(a: real, w: real, t: real)
    requires w != 0.0
    ensures a + w * ((t - a) / w) == t
    ensures (a + w * t - a) / w == t
  {
  }

  lemma OverDepth(x: real, z: real)
    requires z < 0.0
    ensures x / -z == 1.0 / -z * x
  {
  }

  lemma UnitDepth(z: real)
    requires z < 0.0
    ensures 1.0 / -z > 0.0 && 1.0 / -z * z == -1.0
    ensures 1.0 / -z < 0.0001 <==> z < -10000.0
  {
    var k := 1.0 / -z;
    assert k * -z == 1.0;
  }

  /** The ray through the point a ray goes through is that ray, at depth one. */
  lemma RayOfPoint(eye: Tangents, r: Vec3)
    requires Proper(eye) && r.z < 0.0
    ensures var p := PointOf(eye, r); Ray(eye, p.u, p.v) == Scale(1.0 / -r.z, r)
  {
    OverDepth(r.x, r.z);
    OverDepth(r.y, r.z);
    UnitDepth(r.z);
    Stretch(eye.left, eye.right - eye.left, r.x / -r.z);
    Flip(eye.up, eye.down, r.y / -r.z);
  }

  lemma Flip(up: real, down: real, t: real)
    requires up != down
    ensures up + (down - up) * ((up - t) / (up - down)) == t
    ensures (up - (up + (down - up) * t)) / (up - down) == t
  {
    var w := up - down;
    assert w * ((up - t) / w) == up - t;
    assert (down - up) * ((up - t) / w) == -(w * ((up - t) / w));
    assert up - (up + (down - up) * t) == w * t;
  }

  lemma ScaleOut(k: real, x: real)
    requires k > 0.0
    ensures k * x / k == x
  {
  }

  lemma PointOfRay(eye: Tangents, x: real, y: real, k: real)
    requires Proper(eye) && k > 0.0
    ensures PointOf(eye, Scale(k, Ray(eye, x, y))) == Point(x, y)
  {
    var d := Ray(eye, x, y);
    var s := Scale(k, d);
    assert -s.z == k;
    assert s.x / -s.z == d.x by {
      ScaleOut(k, d.x);
    }
    assert s.y / -s.z == d.y by {
      ScaleOut(k, d.y);
    }
    Stretch(eye.left, eye.right - eye.left, x);
    Flip(eye.up, eye.down, y);
  }

  /** An eye's image spans its four tangents: left to right, and from the top down. */
  lemma ImageEdges(eye: Tangents)
    requires Proper(eye)
    ensures Ray(eye, 0.0, 0.0) == Vec3(eye.left, eye.up, -1.0) && Ray(eye, 1.0, 1.0) == Vec3(eye.right, eye.down, -1.0)
    ensures PointOf(eye, Vec3(eye.left, eye.up, -1.0)) == Point(0.0, 0.0)
    ensures PointOf(eye, Vec3(eye.right, eye.down, -1.0)) == Point(1.0, 1.0)
  {
    PointOfRay(eye, 0.0, 0.0, 1.0);
    PointOfRay(eye, 1.0, 1.0, 1.0);
    assert Scale(1.0, Ray(eye, 0.0, 0.0)) == Ray(eye, 0.0, 0.0) && Scale(1.0, Ray(eye, 1.0, 1.0)) == Ray(eye, 1.0, 1.0);
  }

  /** Turning a ray there and back, with the rescaling in between. */
  lemma TurnBack(there: Mat3, back: Mat3, d: Vec3, k: real)
    requires Mul(back, there) == IDENTITY
    ensures Apply(back, Scale(k, Apply(there, d))) == Scale(k, d)
  {
    ApplyScale(back, k, Apply(there, d));
    ApplyMul(back, there, d);
    IdentityNeutral(there, d);
  }

  /** Looking a seen point up with the turn undone: seen exactly if not too far off axis, and then where it was. */
  lemma SeenBack(there: Mat3, back: Mat3, eye: Tangents, x: real, y: real)
    requires Proper(eye) && Mul(back, there) == IDENTITY && Seen(there, eye, x, y).Some?
    ensures
      var p := Seen(there, eye, x, y).value;
      Seen(back, eye, p.u, p.v) == if Apply(there, Ray(eye, x, y)).z < -10000.0 then None else Some(Point(x, y))
  {
    var d := Ray(eye, x, y);
    var r := Apply(there, d);
    var k := 1.0 / -r.z;
    UnitDepth(r.z);
    RayOfPoint(eye, r);
    TurnBack(there, back, d, k);
    PointOfRay(eye, x, y, k);
    assert Scale(k, d).z == -k;
  }

  /**
   * Between exact rotations, the layer's point for a scene point leads back to that scene point: whenever
   * the second lookup succeeds, and it fails exactly for a ray that ends up more than 10000 deep.
   */
  lemma LookupRoundTrip(a: Mat3, b: Mat3, eye: Tangents, x: real, y: real)
    requires ExactRotation(a) && ExactRotation(b) && Proper(eye)
    requires Seen(Placed(a, b).rotation, eye, x, y).Some?
    ensures
      var p := Seen(Placed(a, b).rotation, eye, x, y).value;
      Seen(Placed(b, a).rotation, eye, p.u, p.v)
      == if Apply(Placed(a, b).rotation, Ray(eye, x, y)).z < -10000.0 then None else Some(Point(x, y))
  {
    PlacementsInvert(a, b);
    SeenBack(Placed(a, b).rotation, Placed(b, a).rotation, eye, x, y);
  }

  /** Edges no further than 7000 out: a field of view just short of ninety degrees to each side. */
  predicate Moderate(eye: Tangents) {
    && -7000.0 <= eye.left <= 7000.0 && -7000.0 <= eye.right <= 7000.0
    && -7000.0 <= eye.up <= 7000.0 && -7000.0 <= eye.down <= 7000.0
  }

  lemma Between(a: real, b: real, t: real, e: real)
    requires -e <= a <= e && -e <= b <= e && 0.0 <= t <= 1.0
    ensures -e <= a + (b - a) * t <= e
  {
    ProductSign(e - a, 1.0 - t);
    ProductSign(e + a, 1.0 - t);
    ProductSign(e - b, t);
    ProductSign(e + b, t);
    assert a + (b - a) * t == a * (1.0 - t) + b * t;
  }

  lemma DifferenceOfSquares(x: real, y: real)
    ensures (x - y) * (x + y) == x * x - y * y
  {
  }

  lemma LargerSquare(x: real, e: real)
    requires x > e > 0.0
    ensures x * x > e * e
  {
    Larger(x, e, x);
    Larger(x, e, e);
  }

  lemma Larger(x: real, y: real, k: real)
    requires x > y && k > 0.0
    ensures x * k > y * k
  {
    assert (x - y) * k > 0.0;
  }

  lemma SquareWithin(x: real, e: real)
    requires e > 0.0
    decreases x < -e
    ensures -e <= x <= e ==> x * x <= e * e
    ensures x * x <= e * e ==> -e <= x <= e
  {
    if x > e {
      LargerSquare(x, e);
    } else if x < -e {
      SquareWithin(-x, e);
      assert -x * -x == x * x;
    } else {
      ProductSign(e - x, e + x);
      DifferenceOfSquares(e, x);
    }
  }

  /** A ray through the image is at most ten thousand long, and so is what a turn makes of it. */
  lemma TurnedDepth(turn: Mat3, eye: Tangents, x: real, y: real)
    requires Mul(Transpose(turn), turn) == IDENTITY && Moderate(eye) && OnImage(Point(x, y))
    ensures Apply(turn, Ray(eye, x, y)).z >= -10000.0
  {
    var d := Ray(eye, x, y);
    Between(eye.left, eye.right, x, 7000.0);
    Between(eye.up, eye.down, y, 7000.0);
    RotationKeepsNorm(turn, d);
    LastComponent(d, Apply(turn, d));
  }

  lemma LastComponent(d: Vec3, r: Vec3)
    requires Dot(r, r) == Dot(d, d) && VecWithin(d, 7000.0) && d.z == -1.0
    ensures -10000.0 <= r.z
  {
    SquareWithin(d.x, 7000.0);
    SquareWithin(d.y, 7000.0);
    UnitSquare(r.x);
    UnitSquare(r.y);
    SquareWithin(r.z, 10000.0);
  }

  /** For a moderate field of view, a point of the image that the layer sees always comes back to itself, as a hit. */
  lemma LookupAlwaysReturns(a: Mat3, b: Mat3, eye: Tangents, x: real, y: real)
    requires ExactRotation(a) && ExactRotation(b) && Proper(eye) && Moderate(eye)
    requires OnImage(Point(x, y)) && Seen(Placed(a, b).rotation, eye, x, y).Some?
    ensures
      var p := Seen(Placed(a, b).rotation, eye, x, y).value;
      Seen(Placed(b, a).rotation, eye, p.u, p.v) == Some(Point(x, y))
  {
    LookupRoundTrip(a, b, eye, x, y);
    PlacementsInvert(a, b);
    TurnedDepth(Placed(a, b).rotation, eye, x, y);
  }
}
