/** How a layer lines up with the scene, and the lookup of a scene point in the layer's image. */
module LayerPlacement {
  import opened Rotations
  import opened LayerCompose

  predicate EntryNear(m: Mat3, n: Mat3, eps: real, r: nat, c: nat)
    requires r < 3 && c < 3
  {
    Abs(m.At(r, c) - n.At(r, c)) <= eps
  }

  predicate Near(m: Mat3, n: Mat3, eps: real) {
    forall r: nat, c: nat :: r < 3 && c < 3 ==> EntryNear(m, n, eps, r, c)
  }

  /** The turn from the scene's head frame to the layer's. */
  function Relative(scene: Mat3, layer: Mat3): Mat3 {
    Mul(Transpose(layer), scene)
  }

  /** A turn too small to matter is none. */
  function Snapped(turn: Mat3): Placement {
    if Near(turn, IDENTITY, SNAP) then Placement(false, IDENTITY) else Placement(true, turn)
  }

  function Placed(scene: Mat3, layer: Mat3): Placement {
    if !IsRotation(scene) || !IsRotation(layer) then Placement(false, IDENTITY)
    else Snapped(Relative(scene, layer))
  }

  lemma RelativeEntry(scene: Mat3, layer: Mat3, r: nat, c: nat)
    requires r < 3 && c < 3
    ensures Relative(scene, layer).At(r, c)
         == layer.At(0, r) * scene.At(0, c) + layer.At(1, r) * scene.At(1, c) + layer.At(2, r) * scene.At(2, c)
  {
    var u, v := Transpose(layer).Row(r), Transpose(scene).Row(c);
    assert Relative(scene, layer).At(r, c) == Dot(v, u);
    assert u == Vec3(layer.At(0, r), layer.At(1, r), layer.At(2, r));
    assert v == Vec3(scene.At(0, c), scene.At(1, c), scene.At(2, c));
  }

  method Place(scenePose: array2<real>, layerPose: array2<real>) returns (p: Placement)
    requires IsPose(scenePose) && IsPose(layerPose)
    ensures p == Placed(Matrix(scenePose), Matrix(layerPose))
  {
    var scene, layer := new real[3, 3], new real[3, 3];
    var sceneOk := RotationOf(scenePose, scene);
    if !sceneOk {
      return Placement(false, IDENTITY);
    }
    var layerOk := RotationOf(layerPose, layer);
    if !layerOk {
      return Placement(false, IDENTITY);
    }
    p := Turn(scene, layer);
  }

  /** One entry of the turn: column r of the layer against column c of the scene. */
  method DotColumns(scene: array2<real>, layer: array2<real>, r: nat, c: nat) returns (entry: real)
    requires Is3x3(scene) && Is3x3(layer) && r < 3 && c < 3
    ensures entry == Relative(Matrix(scene), Matrix(layer)).At(r, c)
  {
    entry := layer[0, r] * scene[0, c] + layer[1, r] * scene[1, c] + layer[2, r] * scene[2, c];
    RelativeEntry(Matrix(scene), Matrix(layer), r, c);
    ghost var s, l := Matrix(scene), Matrix(layer);
    assert s.At(0, c) == scene[0, c] && s.At(1, c) == scene[1, c] && s.At(2, c) == scene[2, c];
    assert l.At(0, r) == layer[0, r] && l.At(1, r) == layer[1, r] && l.At(2, r) == layer[2, r];
  }

  /** The placement between two rotations. */
  method Turn(scene: array2<real>, layer: array2<real>) returns (p: Placement)
    requires Is3x3(scene) && Is3x3(layer)
    ensures p == Snapped(Relative(Matrix(scene), Matrix(layer)))
  {
    var rotation := new real[3, 3];
    ghost var rel := Relative(Matrix(scene), Matrix(layer));
    var same := true;
    for r := 0 to 3
      invariant forall i: nat, j: nat :: i < r && j < 3 ==> rotation[i, j] == rel.At(i, j)
      invariant same ==> forall i: nat, j: nat :: i < r && j < 3 ==> EntryNear(rel, IDENTITY, SNAP, i, j)
      invariant !same ==> !Near(rel, IDENTITY, SNAP)
    {
      for c := 0 to 3
        invariant forall i: nat, j: nat :: i < r && j < 3 ==> rotation[i, j] == rel.At(i, j)
        invariant forall j: nat :: j < c ==> rotation[r, j] == rel.At(r, j)
        invariant same ==> forall i: nat, j: nat :: i < r && j < 3 ==> EntryNear(rel, IDENTITY, SNAP, i, j)
        invariant same ==> forall j: nat :: j < c ==> EntryNear(rel, IDENTITY, SNAP, r, j)
        invariant !same ==> !Near(rel, IDENTITY, SNAP)
      {
        var entry := DotColumns(scene, layer, r, c);
        rotation[r, c] := entry;
        if Abs(rotation[r, c] - IDENTITY.At(r, c)) > SNAP {
          assert !EntryNear(rel, IDENTITY, SNAP, r, c);
          same := false;
        }
      }
    }
    assert Matrix(rotation) == rel;
    assert same == Near(rel, IDENTITY, SNAP);
    p := Placement(!same, if same then IDENTITY else Matrix(rotation));
  }

  // ---- placements between exact rotations ----

  lemma RelativeFlip(scene: Mat3, layer: Mat3)
    ensures Relative(layer, scene) == Transpose(Relative(scene, layer))
  {
    TransposeMul(Transpose(layer), scene);
  }

  /** The turn between two exact rotations is undone by its transpose. */
  lemma RelativeInverse(scene: Mat3, layer: Mat3)
    requires ExactRotation(scene) && ExactRotation(layer)
    ensures Mul(Relative(layer, scene), Relative(scene, layer)) == IDENTITY
  {
    TransposeIsInverse(scene);
    TransposeIsInverse(layer);
    var st, lt := Transpose(scene), Transpose(layer);
    var v := scene.r0;
    MulAssociative(st, layer, Mul(lt, scene));
    MulAssociative(layer, lt, scene);
    IdentityNeutral(scene, v);
  }

  lemma NearTranspose(m: Mat3, eps: real)
    ensures Near(Transpose(m), IDENTITY, eps) == Near(m, IDENTITY, eps)
  {
    forall r: nat, c: nat | r < 3 && c < 3
      ensures EntryNear(Transpose(m), IDENTITY, eps, r, c) == EntryNear(m, IDENTITY, eps, c, r)
    {
      assert Transpose(m).At(r, c) == m.At(c, r);
    }
  }

  lemma SnapTranspose(m: Mat3)
    ensures Snapped(Transpose(m)) == Placement(Snapped(m).rotated, Transpose(Snapped(m).rotation))
  {
    NearTranspose(m, SNAP);
  }

  /** What undoes a turn undoes it after snapping. */
  lemma SnapInverse(m: Mat3)
    requires Mul(Transpose(m), m) == IDENTITY
    ensures Mul(Snapped(Transpose(m)).rotation, Snapped(m).rotation) == IDENTITY
  {
    NearTranspose(m, SNAP);
    if Near(m, IDENTITY, SNAP) {
      IdentityNeutral(IDENTITY, m.r0);
      assert Snapped(m).rotation == IDENTITY && Snapped(Transpose(m)).rotation == IDENTITY;
    } else {
      assert Snapped(m).rotation == m && Snapped(Transpose(m)).rotation == Transpose(m);
    }
  }

  lemma PlacedIsSnapped(a: Mat3, b: Mat3)
    requires ExactRotation(a) && ExactRotation(b)
    ensures Placed(a, b) == Snapped(Relative(a, b))
  {
    ExactIsRotation(a);
    ExactIsRotation(b);
  }

  /** Placing in the two directions gives transposes that undo each other, snapped or not. */
  lemma PlacementsInvert(a: Mat3, b: Mat3)
    requires ExactRotation(a) && ExactRotation(b)
    ensures Placed(b, a) == Placement(Placed(a, b).rotated, Transpose(Placed(a, b).rotation))
    ensures Mul(Placed(b, a).rotation, Placed(a, b).rotation) == IDENTITY
  {
    PlacedIsSnapped(a, b);
    PlacedIsSnapped(b, a);
    RelativeFlip(a, b);
    RelativeInverse(a, b);
    SnapTranspose(Relative(a, b));
    SnapInverse(Relative(a, b));
  }

  /** What points somewhere in the world as seen by the scene's head does so, turned, as seen by the layer's. */
  lemma SameDirection(scene: Mat3, layer: Mat3, d: Vec3)
    requires ExactRotation(scene) && ExactRotation(layer)
    ensures Apply(layer, Apply(Relative(scene, layer), d)) == Apply(scene, d)
  {
    TransposeIsInverse(layer);
    var lt := Transpose(layer);
    ApplyMul(lt, scene, d);
    ApplyMul(layer, lt, Apply(scene, d));
    IdentityNeutral(scene, Apply(scene, d));
  }

  /** The turns compose exactly. */
  lemma RelativeComposes(a: Mat3, b: Mat3, c: Mat3)
    requires ExactRotation(b)
    ensures Mul(Relative(b, c), Relative(a, b)) == Relative(a, c)
  {
    TransposeIsInverse(b);
    var bt, ct := Transpose(b), Transpose(c);
    MulAssociative(ct, b, Mul(bt, a));
    MulAssociative(b, bt, a);
    IdentityNeutral(a, a.r0);
  }

  // ---- how far snapping can move a composition ----

  lemma MulEntry(m: Mat3, n: Mat3, r: nat, c: nat)
    requires r < 3 && c < 3
    ensures Mul(m, n).At(r, c) == m.At(r, 0) * n.At(0, c) + m.At(r, 1) * n.At(1, c) + m.At(r, 2) * n.At(2, c)
  {
    var u, v := m.Row(r), Transpose(n).Row(c);
    assert Mul(m, n).At(r, c) == Dot(v, u);
    assert u == Vec3(m.At(r, 0), m.At(r, 1), m.At(r, 2));
    assert v == Vec3(n.At(0, c), n.At(1, c), n.At(2, c));
  }

  /** No entry is larger than one. */
  predicate Bounded(m: Mat3) {
    forall r: nat, c: nat :: r < 3 && c < 3 ==> EntryBounded(m, r, c)
  }

  predicate EntryBounded(m: Mat3, r: nat, c: nat)
    requires r < 3 && c < 3
  {
    Abs(m.At(r, c)) <= 1.0
  }

  lemma UnitColumn(x: real, y: real, z: real)
    requires x * x + y * y + z * z == 1.0
    ensures Abs(x) <= 1.0 && Abs(y) <= 1.0 && Abs(z) <= 1.0
  {
    UnitSquare(x);
    UnitSquare(y);
    UnitSquare(z);
  }

  lemma UnitSquare(x: real)
    ensures x * x >= 0.0
    ensures x * x <= 1.0 ==> Abs(x) <= 1.0
  {
    if x > 1.0 {
      assert x * x > x;
    } else if x < -1.0 {
      assert x * x > -x;
    }
  }

  lemma RelativeBounded(scene: Mat3, layer: Mat3)
    requires ExactRotation(scene) && ExactRotation(layer)
    ensures Bounded(Relative(scene, layer))
  {
    RelativeFlip(scene, layer);
    RelativeInverse(scene, layer);
    OrthogonalBounded(Relative(scene, layer));
  }

  lemma OrthogonalBounded(m: Mat3)
    requires Mul(Transpose(m), m) == IDENTITY
    ensures Bounded(m)
  {
    forall r: nat, c: nat | r < 3 && c < 3
      ensures EntryBounded(m, r, c)
    {
      MulEntry(Transpose(m), m, c, c);
      assert Transpose(m).At(c, 0) == m.At(0, c) && Transpose(m).At(c, 1) == m.At(1, c) && Transpose(m).At(c, 2) == m.At(2, c);
      UnitColumn(m.At(0, c), m.At(1, c), m.At(2, c));
    }
  }

  lemma ProductSign(p: real, q: real)
    requires p >= 0.0 && q >= 0.0
    ensures p * q >= 0.0
    ensures p > 0.0 && q > 0.0 ==> p * q > 0.0
  {
  }

  lemma ProductUpper(u: real, v: real, e: real)
    requires -e <= u <= e && -1.0 <= v <= 1.0
    ensures u * v <= e
  {
    ProductSign(e - u, 1.0 + v);
    ProductSign(e + u, 1.0 - v);
    assert (e - u) * (1.0 + v) + (e + u) * (1.0 - v) == 2.0 * (e - u * v);
  }

  predicate VecNear(u: Vec3, v: Vec3, eps: real) {
    Abs(u.x - v.x) <= eps && Abs(u.y - v.y) <= eps && Abs(u.z - v.z) <= eps
  }

  predicate VecWithin(u: Vec3, e: real) {
    -e <= u.x <= e && -e <= u.y <= e && -e <= u.z <= e
  }

  function Minus(u: Vec3, v: Vec3): Vec3 {
    Vec3(u.x - v.x, u.y - v.y, u.z - v.z)
  }

  lemma DotUpper(a: real, b: real, c: real, x: real, y: real, z: real, e: real)
    requires -e <= a <= e && -e <= b <= e && -e <= c <= e
    requires -1.0 <= x <= 1.0 && -1.0 <= y <= 1.0 && -1.0 <= z <= 1.0
    ensures a * x + b * y + c * z <= 3.0 * e
  {
    assert a * x <= e by { ProductUpper(a, x, e); }
    assert b * y <= e by { ProductUpper(b, y, e); }
    assert c * z <= e by { ProductUpper(c, z, e); }
  }

  lemma DotNegated(a: real, b: real, c: real, x: real, y: real, z: real)
    ensures -a * x + -b * y + -c * z == -(a * x + b * y + c * z)
  {
  }

  lemma DotBound(a: real, b: real, c: real, x: real, y: real, z: real, e: real) returns (dot: real)
    requires -e <= a <= e && -e <= b <= e && -e <= c <= e
    requires -1.0 <= x <= 1.0 && -1.0 <= y <= 1.0 && -1.0 <= z <= 1.0
    ensures dot == a * x + b * y + c * z && -3.0 * e <= dot <= 3.0 * e
  {
    dot := a * x + b * y + c * z;
    assert dot <= 3.0 * e by {
      DotUpper(a, b, c, x, y, z, e);
    }
    assert -dot <= 3.0 * e by {
      DotUpper(-a, -b, -c, x, y, z, e);
      DotNegated(a, b, c, x, y, z);
    }
  }

  lemma VecDotBound(u: Vec3, v: Vec3, e: real) returns (dot: real)
    requires VecWithin(u, e) && VecWithin(v, 1.0)
    ensures dot == Dot(u, v) && -3.0 * e <= dot <= 3.0 * e
  {
    dot := DotBound(u.x, u.y, u.z, v.x, v.y, v.z, e);
  }

  lemma DotDifference(u: Vec3, u': Vec3, v: Vec3, v': Vec3)
    ensures Dot(u, v) - Dot(u', v') == Dot(Minus(u, u'), v) + Dot(Minus(v, v'), u')
  {
  }

  lemma DotNear(u: Vec3, u': Vec3, v: Vec3, v': Vec3, d: real, e: real)
    requires VecNear(u, u', d) && VecNear(v, v', e) && VecWithin(u', 1.0) && VecWithin(v, 1.0)
    ensures Abs(Dot(u, v) - Dot(u', v')) <= 3.0 * (d + e)
  {
    var s := VecDotBound(Minus(u, u'), v, d);
    var t := VecDotBound(Minus(v, v'), u', e);
    DotDifference(u, u', v, v');
  }

  lemma RowNear(m: Mat3, n: Mat3, eps: real, r: nat)
    requires Near(m, n, eps) && r < 3
    ensures VecNear(m.Row(r), n.Row(r), eps)
  {
    assert EntryNear(m, n, eps, r, 0) && EntryNear(m, n, eps, r, 1) && EntryNear(m, n, eps, r, 2);
  }

  lemma ColumnNear(m: Mat3, n: Mat3, eps: real, c: nat)
    requires Near(m, n, eps) && c < 3
    ensures VecNear(Transpose(m).Row(c), Transpose(n).Row(c), eps)
  {
    assert EntryNear(m, n, eps, 0, c) && EntryNear(m, n, eps, 1, c) && EntryNear(m, n, eps, 2, c);
  }

  lemma RowBounded(m: Mat3, r: nat)
    requires Bounded(m) && r < 3
    ensures VecWithin(m.Row(r), 1.0) && VecWithin(Transpose(m).Row(r), 1.0)
  {
    assert EntryBounded(m, r, 0) && EntryBounded(m, r, 1) && EntryBounded(m, r, 2);
    assert EntryBounded(m, 0, r) && EntryBounded(m, 1, r) && EntryBounded(m, 2, r);
  }

  lemma MulEntryNear(m: Mat3, m': Mat3, n: Mat3, n': Mat3, d: real, e: real, r: nat, c: nat)
    requires Near(m, m', d) && Near(n, n', e) && Bounded(m') && Bounded(n)
    requires r < 3 && c < 3
    ensures EntryNear(Mul(m, n), Mul(m', n'), 3.0 * (d + e), r, c)
  {
    RowNear(m, m', d, r);
    ColumnNear(n, n', e, c);
    RowBounded(m', r);
    RowBounded(n, c);
    DotNear(m.Row(r), m'.Row(r), Transpose(n).Row(c), Transpose(n').Row(c), d, e);
    MulIsDot(m, n, r, c);
    MulIsDot(m', n', r, c);
  }

  lemma MulIsDot(m: Mat3, n: Mat3, r: nat, c: nat)
    requires r < 3 && c < 3
    ensures Mul(m, n).At(r, c) == Dot(m.Row(r), Transpose(n).Row(c))
  {
  }

  /** Products of nearly equal matrices are nearly equal. */
  lemma MulNear(m: Mat3, m': Mat3, n: Mat3, n': Mat3, d: real, e: real, eps: real)
    requires Near(m, m', d) && Near(n, n', e) && Bounded(m') && Bounded(n) && eps == 3.0 * (d + e)
    ensures Near(Mul(m, n), Mul(m', n'), eps)
  {
    var p, p' := Mul(m, n), Mul(m', n');
    forall r: nat, c: nat | r < 3 && c < 3
      ensures EntryNear(p, p', eps, r, c)
    {
      MulEntryNear(m, m', n, n', d, e, r, c);
    }
  }

  lemma SnapNear(m: Mat3)
    requires Bounded(m)
    ensures Near(Snapped(m).rotation, m, SNAP)
    ensures Bounded(Snapped(m).rotation)
  {
    var s := Snapped(m).rotation;
    forall r: nat, c: nat | r < 3 && c < 3
      ensures EntryNear(s, m, SNAP, r, c) && EntryBounded(s, r, c)
    {
      assert EntryBounded(m, r, c) && EntryBounded(IDENTITY, r, c);
      assert Near(m, IDENTITY, SNAP) ==> EntryNear(m, IDENTITY, SNAP, r, c);
    }
  }

  /**
   * Placing b over a and c over b turns like placing c over a, up to the snapping of the three
   * placements: to the letter when none is snapped, and never off by more than seven snaps in any entry.
   */
  lemma PlacementsCompose(a: Mat3, b: Mat3, c: Mat3)
    requires ExactRotation(a) && ExactRotation(b) && ExactRotation(c)
    ensures var turn := Mul(Placed(b, c).rotation, Placed(a, b).rotation);
            && Near(turn, Placed(a, c).rotation, 7.0 * SNAP)
            && (Placed(a, b).rotated && Placed(b, c).rotated && Placed(a, c).rotated ==> turn == Placed(a, c).rotation)
  {
    PlacedIsSnapped(a, b);
    PlacedIsSnapped(b, c);
    PlacedIsSnapped(a, c);
    RelativeComposes(a, b, c);
    RelativeBounded(a, b);
    RelativeBounded(b, c);
    RelativeBounded(a, c);
    SnapsCompose(Relative(a, b), Relative(b, c), Relative(a, c));
  }

  lemma SnapsCompose(m: Mat3, n: Mat3, nm: Mat3)
    requires Bounded(m) && Bounded(n) && Bounded(nm) && Mul(n, m) == nm
    ensures var turn := Mul(Snapped(n).rotation, Snapped(m).rotation);
            && Near(turn, Snapped(nm).rotation, 7.0 * SNAP)
            && (Snapped(m).rotated && Snapped(n).rotated && Snapped(nm).rotated ==> turn == Snapped(nm).rotation)
  {
    SnapNear(m);
    SnapNear(n);
    SnapNear(nm);
    var sm, sn, snm := Snapped(m).rotation, Snapped(n).rotation, Snapped(nm).rotation;
    MulNear(sn, n, sm, m, SNAP, SNAP, 6.0 * SNAP);
    NearTriangle(Mul(sn, sm), nm, snm, 6.0 * SNAP, SNAP, 7.0 * SNAP);
  }

  lemma NearTriangle(m: Mat3, n: Mat3, p: Mat3, d: real, e: real, eps: real)
    requires Near(m, n, d) && Near(p, n, e) && eps == d + e
    ensures Near(m, p, eps)
  {
    forall r: nat, c: nat | r < 3 && c < 3
      ensures EntryNear(m, p, eps, r, c)
    {
      assert EntryNear(m, n, d, r, c) && EntryNear(p, n, e, r, c);
    }
  }
}
