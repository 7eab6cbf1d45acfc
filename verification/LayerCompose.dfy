/** Layer composition: rotations, orientations and lookups along rays. */
module LayerCompose {
  import opened Rotations

  datatype Tangents = Tangents(left: real, right: real, up: real, down: real)

  /** An eye image has a width and a height. */
  predicate Proper(eye: Tangents) {
    eye.left != eye.right && eye.up != eye.down
  }

  /** A layer with its own head orientation, as the turn from the frame of the scene. */
  datatype Placement = Placement(rotated: bool, rotation: Mat3)

  const TOLERANCE: real := 0.01
  const SNAP: real := 0.00001
  const NEAR_PLANE: real := 0.0001

  /** The square root a caller supplies. */
  ghost predicate IsSqrt(sqrt: real -> real) {
    forall x :: x >= 0.0 ==> sqrt(x) >= 0.0 && sqrt(x) * sqrt(x) == x
  }

  predicate Is3x3(a: array2<real>) {
    a.Length0 == 3 && a.Length1 == 3
  }

  predicate IsPose(a: array2<real>) {
    a.Length0 == 3 && a.Length1 == 4
  }

  /** The upper-left 3x3 of an array. */
  function Matrix(a: array2<real>): Mat3
    requires a.Length0 == 3 && a.Length1 >= 3
    reads a
  {
    Mat3(Vec3(a[0, 0], a[0, 1], a[0, 2]), Vec3(a[1, 0], a[1, 1], a[1, 2]), Vec3(a[2, 0], a[2, 1], a[2, 2]))
  }

  // ---- which matrices are taken for rotations ----

  function Gram(m: Mat3, a: nat, b: nat): real
    requires a < 3 && b < 3
  {
    Dot(m.Row(a), m.Row(b))
  }

  predicate RowsNear(m: Mat3, a: nat, b: nat)
    requires a < 3 && b < 3
  {
    Abs(Gram(m, a, b) - (if a == b then 1.0 else 0.0)) <= TOLERANCE
  }

  /** Rows within the tolerance of orthonormal, and no reflection. */
  predicate IsRotation(m: Mat3) {
    && (forall a: nat, b: nat :: a <= b < 3 ==> RowsNear(m, a, b))
    && Det(m) > 0.0
  }

  /** Copies a pose's rotation part into `out`; false if it is not one. */
  method RotationOf(pose: array2<real>, out: array2<real>) returns (ok: bool)
    requires IsPose(pose) && Is3x3(out)
    modifies out
    ensures Matrix(out) == Matrix(pose)
    ensures ok == IsRotation(Matrix(pose))
  {
    for r := 0 to 3
      invariant forall i, j :: 0 <= i < r && 0 <= j < 3 ==> out[i, j] == pose[i, j]
    {
      for c := 0 to 3
        invariant forall i, j :: 0 <= i < r && 0 <= j < 3 ==> out[i, j] == pose[i, j]
        invariant forall j :: 0 <= j < c ==> out[r, j] == pose[r, j]
      {
        out[r, c] := pose[r, c];
      }
    }
    ghost var m := Matrix(pose);
    assert Matrix(out) == m;
    for a := 0 to 3
      invariant forall i: nat, j: nat :: i < a && i <= j < 3 ==> RowsNear(m, i, j)
    {
      for b := a to 3
        invariant forall i: nat, j: nat :: i < a && i <= j < 3 ==> RowsNear(m, i, j)
        invariant forall j: nat :: a <= j < b ==> RowsNear(m, a, j)
      {
        var dot := out[a, 0] * out[b, 0] + out[a, 1] * out[b, 1] + out[a, 2] * out[b, 2];
        assert dot == Gram(m, a, b);
        if Abs(dot - (if a == b then 1.0 else 0.0)) > TOLERANCE {
          assert !RowsNear(m, a, b);
          return false;
        }
      }
    }
    var det := out[0, 0] * (out[1, 1] * out[2, 2] - out[1, 2] * out[2, 1])
             - out[0, 1] * (out[1, 0] * out[2, 2] - out[1, 2] * out[2, 0])
             + out[0, 2] * (out[1, 0] * out[2, 1] - out[1, 1] * out[2, 0]);
    assert det == Det(m);
    return det > 0.0;
  }

  /** An exact rotation is taken for one. */
  lemma ExactIsRotation(m: Mat3)
    requires ExactRotation(m)
    ensures IsRotation(m)
  {
    forall a: nat, b: nat | a <= b < 3
      ensures RowsNear(m, a, b)
    {
      assert Gram(m, a, b) == if a == b then 1.0 else 0.0;
    }
  }

  // ---- the orientation as a quaternion ----

  /** The divisor's quarter square, by the branch taken. */
  function Radicand(m: Mat3): real {
    var a, e, i := m.r0.x, m.r1.y, m.r2.z;
    if a + e + i > 0.0 then a + e + i + 1.0
    else if a > e && a > i then 1.0 + a - e - i
    else if e > i then 1.0 + e - a - i
    else 1.0 + i - a - e
  }

  /** Every branch, on every matrix, takes the root of at least one. */
  lemma RadicandAtLeastOne(m: Mat3)
    ensures Radicand(m) >= 1.0
  {
  }

  lemma RootAtLeastOne(sqrt: real -> real, x: real)
    requires IsSqrt(sqrt) && x >= 1.0
    ensures sqrt(x) >= 1.0
  {
    var s := sqrt(x);
    assert s >= 0.0 && s * s == x;
    assert s < 1.0 ==> s * s <= s;
  }

  /** The divisor of every branch is at least two. */
  ghost function Divisor(sqrt: real -> real, m: Mat3): (s: real)
    requires IsSqrt(sqrt)
    ensures s >= 2.0
  {
    RadicandAtLeastOne(m);
    RootAtLeastOne(sqrt, Radicand(m));
    sqrt(Radicand(m)) * 2.0
  }

  lemma DivisorSquared(sqrt: real -> real, m: Mat3)
    requires IsSqrt(sqrt)
    ensures Divisor(sqrt, m) * Divisor(sqrt, m) == 4.0 * Radicand(m)
  {
    RadicandAtLeastOne(m);
    var root := sqrt(Radicand(m));
    assert root * root == Radicand(m);
    assert root * 2.0 * (root * 2.0) == 4.0 * (root * root);
  }

  /** The quaternion of matrix m, by the branch the diagonal selects. */
  ghost function Orientation(sqrt: real -> real, m: Mat3): Quat
    requires IsSqrt(sqrt)
  {
    OrientationBy(m, Divisor(sqrt, m))
  }

  function OrientationBy(m: Mat3, s: real): Quat
    requires s != 0.0
  {
    var a, e, i := m.r0.x, m.r1.y, m.r2.z;
    if a + e + i > 0.0 then
      Quat((m.r2.y - m.r1.z) / s, (m.r0.z - m.r2.x) / s, (m.r1.x - m.r0.y) / s, 0.25 * s)
    else if a > e && a > i then
      Quat(0.25 * s, (m.r0.y + m.r1.x) / s, (m.r0.z + m.r2.x) / s, (m.r2.y - m.r1.z) / s)
    else if e > i then
      Quat((m.r0.y + m.r1.x) / s, 0.25 * s, (m.r1.z + m.r2.y) / s, (m.r0.z - m.r2.x) / s)
    else
      Quat((m.r0.z + m.r2.x) / s, (m.r1.z + m.r2.y) / s, 0.25 * s, (m.r1.x - m.r0.y) / s)
  }

  /** Fills q (x, y, z, w) with the quaternion of the matrix in m. */
  method QuaternionOf(sqrt: real -> real, m: array2<real>, q: array<real>)
    requires IsSqrt(sqrt) && Is3x3(m) && q.Length == 4
    modifies q
    ensures Quat(q[0], q[1], q[2], q[3]) == Orientation(sqrt, old(Matrix(m)))
  {
    ghost var turn := Matrix(m);
    ghost var divisor := Divisor(sqrt, turn);
    var trace := m[0, 0] + m[1, 1] + m[2, 2];
    if trace > 0.0 {
      var s := sqrt(trace + 1.0) * 2.0;
      assert s == divisor;
      q[3] := 0.25 * s;
      q[0] := (m[2, 1] - m[1, 2]) / s;
      q[1] := (m[0, 2] - m[2, 0]) / s;
      q[2] := (m[1, 0] - m[0, 1]) / s;
      assert Quat(q[0], q[1], q[2], q[3]) == OrientationBy(turn, s);
    } else if m[0, 0] > m[1, 1] && m[0, 0] > m[2, 2] {
      var s := sqrt(1.0 + m[0, 0] - m[1, 1] - m[2, 2]) * 2.0;
      assert s == divisor;
      q[3] := (m[2, 1] - m[1, 2]) / s;
      q[0] := 0.25 * s;
      q[1] := (m[0, 1] + m[1, 0]) / s;
      q[2] := (m[0, 2] + m[2, 0]) / s;
      assert Quat(q[0], q[1], q[2], q[3]) == OrientationBy(turn, s);
    } else if m[1, 1] > m[2, 2] {
      var s := sqrt(1.0 + m[1, 1] - m[0, 0] - m[2, 2]) * 2.0;
      assert s == divisor;
      q[3] := (m[0, 2] - m[2, 0]) / s;
      q[0] := (m[0, 1] + m[1, 0]) / s;
      q[1] := 0.25 * s;
      q[2] := (m[1, 2] + m[2, 1]) / s;
      assert Quat(q[0], q[1], q[2], q[3]) == OrientationBy(turn, s);
    } else {
      var s := sqrt(1.0 + m[2, 2] - m[0, 0] - m[1, 1]) * 2.0;
      assert s == divisor;
      q[3] := (m[1, 0] - m[0, 1]) / s;
      q[0] := (m[0, 2] + m[2, 0]) / s;
      q[1] := (m[1, 2] + m[2, 1]) / s;
      q[2] := 0.25 * s;
      assert Quat(q[0], q[1], q[2], q[3]) == OrientationBy(turn, s);
    }
  }

  /** Fills q with a pose's orientation; false, and q as it was, if the pose holds no rotation. */
  method OrientationOf(sqrt: real -> real, pose: array2<real>, q: array<real>) returns (ok: bool)
    requires IsSqrt(sqrt) && IsPose(pose) && q.Length == 4
    modifies q
    ensures ok == IsRotation(Matrix(pose))
    ensures ok ==> Quat(q[0], q[1], q[2], q[3]) == Orientation(sqrt, Matrix(pose))
    ensures !ok ==> q[..] == old(q[..])
  {
    var r := new real[3, 3];
    ok := RotationOf(pose, r);
    if ok {
      QuaternionOf(sqrt, r, q);
    }
  }

  lemma Quotient(p: real, s: real) returns (r: real)
    requires s != 0.0
    ensures r == p / s && r * s == p
  {
    r := p / s;
  }

  /** The orientation of an exact rotation is a unit quaternion that turns back into the same matrix. */
  lemma OrientationIsExact(sqrt: real -> real, m: Mat3)
    requires IsSqrt(sqrt) && ExactRotation(m)
    ensures Norm2(Orientation(sqrt, m)) == 1.0
    ensures RotationMatrix(Orientation(sqrt, m)) == m
  {
    var a, b, c, d, e, f, g, h, i := m.r0.x, m.r0.y, m.r0.z, m.r1.x, m.r1.y, m.r1.z, m.r2.x, m.r2.y, m.r2.z;
    OrientationRepresents(sqrt, a, b, c, d, e, f, g, h, i);
    RepresentsMatrix(Orientation(sqrt, m), a, b, c, d, e, f, g, h, i);
  }

  lemma OrientationRepresents(sqrt: real -> real, a: real, b: real, c: real, d: real, e: real, f: real,
                              g: real, h: real, i: real)
    requires IsSqrt(sqrt)
    requires Orthonormal(a, b, c, d, e, f, g, h, i) && Det9(a, b, c, d, e, f, g, h, i) > 0.0
    ensures Represents(Orientation(sqrt, Mat3(Vec3(a, b, c), Vec3(d, e, f), Vec3(g, h, i))), a, b, c, d, e, f, g, h, i)
  {
    EntriesOfRotation(a, b, c, d, e, f, g, h, i);
    var m := Mat3(Vec3(a, b, c), Vec3(d, e, f), Vec3(g, h, i));
    var s := Divisor(sqrt, m);
    RadicandAtLeastOne(m);
    DivisorSquared(sqrt, m);
    if a + e + i > 0.0 {
      TraceQuaternion(a, b, c, d, e, f, g, h, i, s);
    } else if a > e && a > i {
      AxisQuaternion(a, b, c, d, e, f, g, h, i, s);
    } else if e > i {
      SecondAxisQuaternion(a, b, c, d, e, f, g, h, i, s);
    } else {
      ThirdAxisQuaternion(a, b, c, d, e, f, g, h, i, s);
    }
  }

  lemma TraceQuaternion(a: real, b: real, c: real, d: real, e: real, f: real, g: real, h: real, i: real, s: real)
    requires RotationEntries(a, b, c, d, e, f, g, h, i) && s > 0.0
    requires 1.0 + a + e + i > 0.0 && s * s == 4.0 * (1.0 + a + e + i)
    ensures Represents(Quat((h - f) / s, (c - g) / s, (d - b) / s, 0.25 * s), a, b, c, d, e, f, g, h, i)
  {
    var x := Quotient(h - f, s);
    var y := Quotient(c - g, s);
    var z := Quotient(d - b, s);
    TraceBranch(a, b, c, d, e, f, g, h, i, s, Quat(x, y, z, 0.25 * s));
  }

  lemma AxisQuaternion(a: real, b: real, c: real, d: real, e: real, f: real, g: real, h: real, i: real, s: real)
    requires RotationEntries(a, b, c, d, e, f, g, h, i) && s > 0.0
    requires 1.0 + a - e - i > 0.0 && s * s == 4.0 * (1.0 + a - e - i)
    ensures Represents(Quat(0.25 * s, (b + d) / s, (c + g) / s, (h - f) / s), a, b, c, d, e, f, g, h, i)
  {
    var y := Quotient(b + d, s);
    var z := Quotient(c + g, s);
    var w := Quotient(h - f, s);
    AxisBranch(a, b, c, d, e, f, g, h, i, s, Quat(0.25 * s, y, z, w));
  }

  lemma SecondAxisQuaternion(a: real, b: real, c: real, d: real, e: real, f: real, g: real, h: real, i: real, s: real)
    requires RotationEntries(a, b, c, d, e, f, g, h, i) && s > 0.0
    requires 1.0 + e - a - i > 0.0 && s * s == 4.0 * (1.0 + e - a - i)
    ensures Represents(Quat((b + d) / s, 0.25 * s, (f + h) / s, (c - g) / s), a, b, c, d, e, f, g, h, i)
  {
    var x := Quotient(b + d, s);
    var z := Quotient(f + h, s);
    var w := Quotient(c - g, s);
    SecondAxisBranch(a, b, c, d, e, f, g, h, i, s, Quat(x, 0.25 * s, z, w));
  }

  lemma ThirdAxisQuaternion(a: real, b: real, c: real, d: real, e: real, f: real, g: real, h: real, i: real, s: real)
    requires RotationEntries(a, b, c, d, e, f, g, h, i) && s > 0.0
    requires 1.0 + i - a - e > 0.0 && s * s == 4.0 * (1.0 + i - a - e)
    ensures Represents(Quat((c + g) / s, (f + h) / s, 0.25 * s, (d - b) / s), a, b, c, d, e, f, g, h, i)
  {
    var x := Quotient(c + g, s);
    var y := Quotient(f + h, s);
    var w := Quotient(d - b, s);
    ThirdAxisBranch(a, b, c, d, e, f, g, h, i, s, Quat(x, y, 0.25 * s, w));
  }
}
