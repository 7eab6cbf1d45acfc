/** Exact linear algebra of 3x3 rotation matrices and quaternions, over the reals. */
module Rotations {
  datatype Vec3 = Vec3(x: real, y: real, z: real)

  /** Row-major. */
  datatype Mat3 = Mat3(r0: Vec3, r1: Vec3, r2: Vec3) {
    function Row(r: nat): Vec3
      requires r < 3
    {
      if r == 0 then r0 else if r == 1 then r1 else r2
    }

    function At(r: nat, c: nat): real
      requires r < 3 && c < 3
    {
      var row := Row(r);
      if c == 0 then row.x else if c == 1 then row.y else row.z
    }
  }

  datatype Quat = Quat(x: real, y: real, z: real, w: real)

  const IDENTITY: Mat3 := Mat3(Vec3(1.0, 0.0, 0.0), Vec3(0.0, 1.0, 0.0), Vec3(0.0, 0.0, 1.0))

  function Abs(x: real): real {
    if x < 0.0 then -x else x
  }

  function Dot(u: Vec3, v: Vec3): real {
    u.x * v.x + u.y * v.y + u.z * v.z
  }

  function Scale(k: real, v: Vec3): Vec3 {
    Vec3(k * v.x, k * v.y, k * v.z)
  }

  function Apply(m: Mat3, v: Vec3): Vec3 {
    Vec3(Dot(m.r0, v), Dot(m.r1, v), Dot(m.r2, v))
  }

  function Transpose(m: Mat3): Mat3 {
    Mat3(Vec3(m.r0.x, m.r1.x, m.r2.x), Vec3(m.r0.y, m.r1.y, m.r2.y), Vec3(m.r0.z, m.r1.z, m.r2.z))
  }

  function Mul(a: Mat3, b: Mat3): Mat3 {
    var t := Transpose(b);
    Mat3(Apply(t, a.r0), Apply(t, a.r1), Apply(t, a.r2))
  }

  /** The determinant of the matrix with rows (a b c), (d e f), (g h i). */
  function Det9(a: real, b: real, c: real, d: real, e: real, f: real, g: real, h: real, i: real): real {
    a * (e * i - f * h) - b * (d * i - f * g) + c * (d * h - e * g)
  }

  function Det(m: Mat3): real {
    Det9(m.r0.x, m.r0.y, m.r0.z, m.r1.x, m.r1.y, m.r1.z, m.r2.x, m.r2.y, m.r2.z)
  }

  /** Orthonormal rows, not a reflection. */
  predicate ExactRotation(m: Mat3) {
    && Orthonormal(m.r0.x, m.r0.y, m.r0.z, m.r1.x, m.r1.y, m.r1.z, m.r2.x, m.r2.y, m.r2.z)
    && Det(m) > 0.0
  }

  lemma MulAssociative(a: Mat3, b: Mat3, c: Mat3)
    ensures Mul(Mul(a, b), c) == Mul(a, Mul(b, c))
  {
    TransposeMul(b, c);
    ApplyMul(Transpose(c), Transpose(b), a.r0);
    ApplyMul(Transpose(c), Transpose(b), a.r1);
    ApplyMul(Transpose(c), Transpose(b), a.r2);
  }

  lemma ApplyMul(a: Mat3, b: Mat3, v: Vec3)
    ensures Apply(Mul(a, b), v) == Apply(a, Apply(b, v))
  {
  }

  lemma ApplyScale(m: Mat3, k: real, v: Vec3)
    ensures Apply(m, Scale(k, v)) == Scale(k, Apply(m, v))
  {
    DotScale(m.r0, k, v);
    DotScale(m.r1, k, v);
    DotScale(m.r2, k, v);
  }

  lemma DotScale(u: Vec3, k: real, v: Vec3)
    ensures Dot(u, Scale(k, v)) == k * Dot(u, v)
    ensures Dot(Scale(k, v), u) == k * Dot(v, u)
  {
  }

  lemma IdentityNeutral(m: Mat3, v: Vec3)
    ensures Mul(IDENTITY, m) == m == Mul(m, IDENTITY)
    ensures Apply(IDENTITY, v) == v
  {
  }

  lemma TransposeMul(a: Mat3, b: Mat3)
    ensures Transpose(Mul(a, b)) == Mul(Transpose(b), Transpose(a))
  {
  }

  // The cofactors of a matrix with rows (a b c), (d e f), (g h i) against its columns.
  lemma AdjugateColumns(a: real, b: real, c: real, d: real, e: real, f: real, g: real, h: real, i: real)
    ensures
      var det := a * (e * i - f * h) - b * (d * i - f * g) + c * (d * h - e * g);
      && (e * i - f * h) * a + (h * c - i * b) * d + (b * f - c * e) * g == det
      && (f * g - d * i) * b + (i * a - g * c) * e + (c * d - a * f) * h == det
      && (d * h - e * g) * c + (g * b - h * a) * f + (a * e - b * d) * i == det
    ensures (e * i - f * h) * b + (h * c - i * b) * e + (b * f - c * e) * h == 0.0
    ensures (e * i - f * h) * c + (h * c - i * b) * f + (b * f - c * e) * i == 0.0
    ensures (f * g - d * i) * a + (i * a - g * c) * d + (c * d - a * f) * g == 0.0
    ensures (f * g - d * i) * c + (i * a - g * c) * f + (c * d - a * f) * i == 0.0
    ensures (d * h - e * g) * a + (g * b - h * a) * d + (a * e - b * d) * g == 0.0
    ensures (d * h - e * g) * b + (g * b - h * a) * e + (a * e - b * d) * h == 0.0
  {
  }

  /** Rows (a b c), (d e f), (g h i) of length one at right angles. */
  predicate Orthonormal(a: real, b: real, c: real, d: real, e: real, f: real, g: real, h: real, i: real) {
    && a * a + b * b + c * c == 1.0 && d * d + e * e + f * f == 1.0 && g * g + h * h + i * i == 1.0
    && a * d + b * e + c * f == 0.0 && a * g + b * h + c * i == 0.0 && d * g + e * h + f * i == 0.0
  }

  /** With orthonormal rows, a combination (x y z) of the rows determines its coefficients p, q, r. */
  lemma Coefficients(a: real, b: real, c: real, d: real, e: real, f: real, g: real, h: real, i: real,
                     p: real, q: real, r: real, x: real, y: real, z: real)
    requires Orthonormal(a, b, c, d, e, f, g, h, i)
    requires p * a + q * d + r * g == x && p * b + q * e + r * h == y && p * c + q * f + r * i == z
    ensures p == x * a + y * b + z * c
    ensures q == x * d + y * e + z * f
    ensures r == x * g + y * h + z * i
  {
    Combination(a, b, c, d, e, f, g, h, i, p, q, r, a, b, c);
    Combination(a, b, c, d, e, f, g, h, i, p, q, r, d, e, f);
    Combination(a, b, c, d, e, f, g, h, i, p, q, r, g, h, i);
  }

  lemma Combination(a: real, b: real, c: real, d: real, e: real, f: real, g: real, h: real, i: real,
                    p: real, q: real, r: real, u: real, v: real, w: real)
    ensures (p * a + q * d + r * g) * u + (p * b + q * e + r * h) * v + (p * c + q * f + r * i) * w
         == p * (a * u + b * v + c * w) + q * (d * u + e * v + f * w) + r * (g * u + h * v + i * w)
  {
  }

  /** The cofactors of the first column of a matrix with orthonormal rows. */
  lemma ColumnCofactors(a: real, b: real, c: real, d: real, e: real, f: real, g: real, h: real, i: real, k: real)
    requires Orthonormal(a, b, c, d, e, f, g, h, i) && k == Det9(a, b, c, d, e, f, g, h, i)
    ensures e * i - f * h == k * a && h * c - i * b == k * d && b * f - c * e == k * g
  {
    AdjugateColumns(a, b, c, d, e, f, g, h, i);
    Coefficients(a, b, c, d, e, f, g, h, i, e * i - f * h, h * c - i * b, b * f - c * e, k, 0.0, 0.0);
  }

  /** The cofactors of a matrix with orthonormal rows are det times its entries. */
  lemma Cofactors(a: real, b: real, c: real, d: real, e: real, f: real, g: real, h: real, i: real) returns (k: real)
    requires Orthonormal(a, b, c, d, e, f, g, h, i)
    ensures k == Det9(a, b, c, d, e, f, g, h, i)
    ensures e * i - f * h == k * a && h * c - i * b == k * d && b * f - c * e == k * g
    ensures f * g - d * i == k * b && i * a - g * c == k * e && c * d - a * f == k * h
    ensures d * h - e * g == k * c && g * b - h * a == k * f && a * e - b * d == k * i
  {
    k := Det9(a, b, c, d, e, f, g, h, i);
    DetCyclic(a, b, c, d, e, f, g, h, i);
    ColumnCofactors(a, b, c, d, e, f, g, h, i, k);
    ColumnCofactors(b, c, a, e, f, d, h, i, g, k);
    ColumnCofactors(c, a, b, f, d, e, i, g, h, k);
  }

  lemma DetCyclic(a: real, b: real, c: real, d: real, e: real, f: real, g: real, h: real, i: real)
    ensures Det9(a, b, c, d, e, f, g, h, i) == Det9(b, c, a, e, f, d, h, i, g) == Det9(c, a, b, f, d, e, i, g, h)
  {
  }

  /** |u x v|^2 = |u|^2 |v|^2 - (u.v)^2. */
  lemma CrossNorm(d: real, e: real, f: real, g: real, h: real, i: real)
    ensures (e * i - f * h) * (e * i - f * h) + (f * g - d * i) * (f * g - d * i) + (d * h - e * g) * (d * h - e * g)
         == (d * d + e * e + f * f) * (g * g + h * h + i * i) - (d * g + e * h + f * i) * (d * g + e * h + f * i)
  {
  }

  lemma ScaledNorm(k: real, a: real, b: real, c: real)
    ensures k * a * (k * a) + k * b * (k * b) + k * c * (k * c) == k * k * (a * a + b * b + c * c)
  {
  }

  /** The determinant of a matrix with orthonormal rows that is not a reflection. */
  lemma UnitDet(a: real, b: real, c: real, d: real, e: real, f: real, g: real, h: real, i: real)
    requires Orthonormal(a, b, c, d, e, f, g, h, i) && Det9(a, b, c, d, e, f, g, h, i) > 0.0
    ensures Det9(a, b, c, d, e, f, g, h, i) == 1.0
  {
    var k := Cofactors(a, b, c, d, e, f, g, h, i);
    CrossNorm(d, e, f, g, h, i);
    ScaledNorm(k, a, b, c);
    assert k * k == 1.0;
    OnlyRoot(k);
  }

  lemma OnlyRoot(k: real)
    requires k > 0.0
    ensures k * k == 1.0 ==> k == 1.0
  {
    if k > 1.0 {
      assert k * k > k;
    } else if k < 1.0 {
      assert k * k < k;
    }
  }

  lemma UnitCofactors(a: real, b: real, c: real, d: real, e: real, f: real, g: real, h: real, i: real)
    requires Orthonormal(a, b, c, d, e, f, g, h, i) && Det9(a, b, c, d, e, f, g, h, i) > 0.0
    ensures e * i - f * h == a && h * c - i * b == d && b * f - c * e == g
    ensures f * g - d * i == b && i * a - g * c == e && c * d - a * f == h
    ensures d * h - e * g == c && g * b - h * a == f && a * e - b * d == i
  {
    var k := Cofactors(a, b, c, d, e, f, g, h, i);
    UnitDet(a, b, c, d, e, f, g, h, i);
    assert k == 1.0;
  }

  lemma RotationDetIsOne(m: Mat3)
    requires ExactRotation(m)
    ensures Det(m) == 1.0
  {
    UnitDet(m.r0.x, m.r0.y, m.r0.z, m.r1.x, m.r1.y, m.r1.z, m.r2.x, m.r2.y, m.r2.z);
  }

  /** Orthonormal rows give orthonormal columns. */
  lemma ColumnsOrthonormal(a: real, b: real, c: real, d: real, e: real, f: real, g: real, h: real, i: real)
    requires Orthonormal(a, b, c, d, e, f, g, h, i) && Det9(a, b, c, d, e, f, g, h, i) > 0.0
    ensures Orthonormal(a, d, g, b, e, h, c, f, i)
  {
    AdjugateColumns(a, b, c, d, e, f, g, h, i);
    UnitCofactors(a, b, c, d, e, f, g, h, i);
    UnitDet(a, b, c, d, e, f, g, h, i);
  }

  /** The transpose of a rotation is its inverse on both sides. */
  lemma TransposeIsInverse(m: Mat3)
    requires ExactRotation(m)
    ensures Mul(m, Transpose(m)) == IDENTITY
    ensures Mul(Transpose(m), m) == IDENTITY
  {
    ColumnsOrthonormal(m.r0.x, m.r0.y, m.r0.z, m.r1.x, m.r1.y, m.r1.z, m.r2.x, m.r2.y, m.r2.z);
    GramIsIdentity(m);
    GramIsIdentity(Transpose(m));
  }

  lemma GramIsIdentity(m: Mat3)
    requires Orthonormal(m.r0.x, m.r0.y, m.r0.z, m.r1.x, m.r1.y, m.r1.z, m.r2.x, m.r2.y, m.r2.z)
    ensures Mul(m, Transpose(m)) == IDENTITY
  {
  }

  /** A rotation keeps lengths. */
  lemma RotationKeepsNorm(m: Mat3, v: Vec3)
    requires Mul(Transpose(m), m) == IDENTITY
    ensures Dot(Apply(m, v), Apply(m, v)) == Dot(v, v)
  {
    ApplyMul(Transpose(m), m, v);
    IdentityNeutral(m, v);
    var u := Apply(m, v);
    assert Dot(u, u) == Dot(v, Apply(Transpose(m), u)) by {
      DotTranspose(m, v, u);
    }
  }

  lemma DotTranspose(m: Mat3, v: Vec3, u: Vec3)
    ensures Dot(Apply(m, v), u) == Dot(v, Apply(Transpose(m), u))
  {
  }

  /** The rotation matrix of a unit quaternion. */
  function RotationMatrix(q: Quat): Mat3 {
    Mat3(Vec3(1.0 - 2.0 * (q.y * q.y + q.z * q.z), 2.0 * (q.x * q.y - q.w * q.z), 2.0 * (q.x * q.z + q.w * q.y)),
         Vec3(2.0 * (q.x * q.y + q.w * q.z), 1.0 - 2.0 * (q.x * q.x + q.z * q.z), 2.0 * (q.y * q.z - q.w * q.x)),
         Vec3(2.0 * (q.x * q.z - q.w * q.y), 2.0 * (q.y * q.z + q.w * q.x), 1.0 - 2.0 * (q.x * q.x + q.y * q.y)))
  }

  function Norm2(q: Quat): real {
    q.x * q.x + q.y * q.y + q.z * q.z + q.w * q.w
  }

  // ---- from a rotation matrix to its quaternion ----
  // The matrix has rows (a b c), (d e f), (g h i).

  /** What the entries of a rotation satisfy: rows, columns and cofactors. */
  predicate RotationEntries(a: real, b: real, c: real, d: real, e: real, f: real, g: real, h: real, i: real) {
    && Orthonormal(a, b, c, d, e, f, g, h, i) && Orthonormal(a, d, g, b, e, h, c, f, i)
    && e * i - f * h == a && h * c - i * b == d && b * f - c * e == g
    && f * g - d * i == b && i * a - g * c == e && c * d - a * f == h
    && d * h - e * g == c && g * b - h * a == f && a * e - b * d == i
  }

  lemma EntriesOfRotation(a: real, b: real, c: real, d: real, e: real, f: real, g: real, h: real, i: real)
    requires Orthonormal(a, b, c, d, e, f, g, h, i) && Det9(a, b, c, d, e, f, g, h, i) > 0.0
    ensures RotationEntries(a, b, c, d, e, f, g, h, i)
  {
    UnitCofactors(a, b, c, d, e, f, g, h, i);
    ColumnsOrthonormal(a, b, c, d, e, f, g, h, i);
  }

  /** The squares of the quaternion's components, times four. */
  lemma ComponentSquares(a: real, b: real, c: real, d: real, e: real, f: real, g: real, h: real, i: real)
    requires RotationEntries(a, b, c, d, e, f, g, h, i)
    ensures (h - f) * (h - f) == (1.0 + a + e + i) * (1.0 + a - e - i)
    ensures (c - g) * (c - g) == (1.0 + a + e + i) * (1.0 - a + e - i)
    ensures (d - b) * (d - b) == (1.0 + a + e + i) * (1.0 - a - e + i)
    ensures (b + d) * (b + d) == (1.0 + a - e - i) * (1.0 - a + e - i)
    ensures (c + g) * (c + g) == (1.0 + a - e - i) * (1.0 - a - e + i)
    ensures (f + h) * (f + h) == (1.0 - a + e - i) * (1.0 - a - e + i)
  {
  }

  /** The products of different components, times four. */
  lemma ComponentProducts(a: real, b: real, c: real, d: real, e: real, f: real, g: real, h: real, i: real)
    requires RotationEntries(a, b, c, d, e, f, g, h, i)
    ensures (h - f) * (c - g) == (1.0 + a + e + i) * (b + d)
    ensures (h - f) * (d - b) == (1.0 + a + e + i) * (c + g)
    ensures (c - g) * (d - b) == (1.0 + a + e + i) * (f + h)
    ensures (b + d) * (c + g) == (1.0 + a - e - i) * (f + h)
    ensures (h - f) * (b + d) == (1.0 + a - e - i) * (c - g)
    ensures (h - f) * (c + g) == (1.0 + a - e - i) * (d - b)
  {
  }

  /** Turning the axes x -> y -> z -> x keeps a rotation's entries a rotation's. */
  lemma CyclicEntries(a: real, b: real, c: real, d: real, e: real, f: real, g: real, h: real, i: real)
    requires RotationEntries(a, b, c, d, e, f, g, h, i)
    ensures RotationEntries(e, f, d, h, i, g, b, c, a)
  {
  }

  lemma Cancel(k: real, p: real, q: real)
    requires k != 0.0 && k * p == k * q
    ensures p == q
  {
    assert k * (p - q) == 0.0;
  }

  /** u = p / s and v = r / s with s^2 = 4 k: if p r = k n then 4 u v = n. */
  lemma QuotientProduct(s: real, k: real, u: real, v: real, p: real, r: real, n: real)
    requires k > 0.0 && s * s == 4.0 * k && u * s == p && v * s == r && p * r == k * n
    ensures 4.0 * (u * v) == n
  {
    assert u * s * (v * s) == u * v * (s * s);
    assert u * v * (4.0 * k) == k * n;
    Cancel(k, 4.0 * (u * v), n);
  }

  /** w = s / 4 and v = r / s: 4 w v = r. */
  lemma QuarterProduct(s: real, w: real, v: real, r: real)
    requires 4.0 * w == s && v * s == r
    ensures 4.0 * (w * v) == r
  {
    assert 4.0 * w * v == s * v;
  }

  lemma QuarterSquare(s: real, k: real, w: real)
    requires 4.0 * w == s && s * s == 4.0 * k
    ensures 4.0 * (w * w) == k
  {
    assert 4.0 * w * (4.0 * w) == 16.0 * (w * w);
  }

  /** Three numerators whose products are k times what the quotients' products should be. */
  predicate Numerators(k: real, p1: real, p2: real, p3: real,
                       n11: real, n22: real, n33: real, n12: real, n13: real, n23: real) {
    && p1 * p1 == k * n11 && p2 * p2 == k * n22 && p3 * p3 == k * n33
    && p1 * p2 == k * n12 && p1 * p3 == k * n13 && p2 * p3 == k * n23
  }

  /** Four times the products of four components. */
  predicate Products(u0: real, u1: real, u2: real, u3: real, n00: real, n01: real, n02: real, n03: real,
                     n11: real, n22: real, n33: real, n12: real, n13: real, n23: real) {
    && 4.0 * (u0 * u0) == n00 && 4.0 * (u0 * u1) == n01 && 4.0 * (u0 * u2) == n02 && 4.0 * (u0 * u3) == n03
    && 4.0 * (u1 * u1) == n11 && 4.0 * (u2 * u2) == n22 && 4.0 * (u3 * u3) == n33
    && 4.0 * (u1 * u2) == n12 && 4.0 * (u1 * u3) == n13 && 4.0 * (u2 * u3) == n23
  }

  /** The products of the components of the quaternion of a rotation. */
  predicate Represents(q: Quat, a: real, b: real, c: real, d: real, e: real, f: real, g: real, h: real, i: real) {
    Products(q.w, q.x, q.y, q.z, 1.0 + a + e + i, h - f, c - g, d - b,
             1.0 + a - e - i, 1.0 - a + e - i, 1.0 - a - e + i, b + d, c + g, f + h)
  }

  lemma RepresentsMatrix(q: Quat, a: real, b: real, c: real, d: real, e: real, f: real, g: real, h: real, i: real)
    requires Represents(q, a, b, c, d, e, f, g, h, i)
    ensures RotationMatrix(q) == Mat3(Vec3(a, b, c), Vec3(d, e, f), Vec3(g, h, i))
    ensures Norm2(q) == 1.0
  {
    MatrixOfProducts(q.w, q.x, q.y, q.z, a, b, c, d, e, f, g, h, i);
  }

  lemma MatrixOfProducts(w: real, x: real, y: real, z: real,
                         a: real, b: real, c: real, d: real, e: real, f: real, g: real, h: real, i: real)
    requires Products(w, x, y, z, 1.0 + a + e + i, h - f, c - g, d - b,
                      1.0 + a - e - i, 1.0 - a + e - i, 1.0 - a - e + i, b + d, c + g, f + h)
    ensures 1.0 - 2.0 * (y * y + z * z) == a && 2.0 * (x * y - w * z) == b && 2.0 * (x * z + w * y) == c
    ensures 2.0 * (x * y + w * z) == d && 1.0 - 2.0 * (x * x + z * z) == e && 2.0 * (y * z - w * x) == f
    ensures 2.0 * (x * z - w * y) == g && 2.0 * (y * z + w * x) == h && 1.0 - 2.0 * (x * x + y * y) == i
    ensures x * x + y * y + z * z + w * w == 1.0
  {
  }

  /** One component a quarter of s, the others quotients by s: all their products. */
  lemma FourProducts(s: real, k: real, u0: real, u1: real, u2: real, u3: real, p1: real, p2: real, p3: real,
                     n11: real, n22: real, n33: real, n12: real, n13: real, n23: real)
    requires k > 0.0 && s * s == 4.0 * k
    requires 4.0 * u0 == s && u1 * s == p1 && u2 * s == p2 && u3 * s == p3
    requires Numerators(k, p1, p2, p3, n11, n22, n33, n12, n13, n23)
    ensures Products(u0, u1, u2, u3, k, p1, p2, p3, n11, n22, n33, n12, n13, n23)
  {
    assert 4.0 * (u0 * u0) == k by { QuarterSquare(s, k, u0); }
    assert 4.0 * (u0 * u1) == p1 by { QuarterProduct(s, u0, u1, p1); }
    assert 4.0 * (u0 * u2) == p2 by { QuarterProduct(s, u0, u2, p2); }
    assert 4.0 * (u0 * u3) == p3 by { QuarterProduct(s, u0, u3, p3); }
    assert 4.0 * (u1 * u1) == n11 by { QuotientProduct(s, k, u1, u1, p1, p1, n11); }
    assert 4.0 * (u2 * u2) == n22 by { QuotientProduct(s, k, u2, u2, p2, p2, n22); }
    assert 4.0 * (u3 * u3) == n33 by { QuotientProduct(s, k, u3, u3, p3, p3, n33); }
    assert 4.0 * (u1 * u2) == n12 by { QuotientProduct(s, k, u1, u2, p1, p2, n12); }
    assert 4.0 * (u1 * u3) == n13 by { QuotientProduct(s, k, u1, u3, p1, p3, n13); }
    assert 4.0 * (u2 * u3) == n23 by { QuotientProduct(s, k, u2, u3, p2, p3, n23); }
  }

  /** The branch for a positive trace: w is the divisor. */
  lemma FromTrace(a: real, b: real, c: real, d: real, e: real, f: real, g: real, h: real, i: real)
    requires RotationEntries(a, b, c, d, e, f, g, h, i)
    ensures Numerators(1.0 + a + e + i, h - f, c - g, d - b,
                       1.0 + a - e - i, 1.0 - a + e - i, 1.0 - a - e + i, b + d, c + g, f + h)
  {
    ComponentSquares(a, b, c, d, e, f, g, h, i);
    ComponentProducts(a, b, c, d, e, f, g, h, i);
  }

  /** The branch for a largest first diagonal entry: x is the divisor. */
  lemma FromAxis(a: real, b: real, c: real, d: real, e: real, f: real, g: real, h: real, i: real)
    requires RotationEntries(a, b, c, d, e, f, g, h, i)
    ensures Numerators(1.0 + a - e - i, h - f, b + d, c + g,
                       1.0 + a + e + i, 1.0 - a + e - i, 1.0 - a - e + i, c - g, d - b, f + h)
  {
    ComponentSquares(a, b, c, d, e, f, g, h, i);
    ComponentProducts(a, b, c, d, e, f, g, h, i);
  }

  /** The branch for a positive trace, put together. */
  lemma TraceBranch(a: real, b: real, c: real, d: real, e: real, f: real, g: real, h: real, i: real, s: real, q: Quat)
    requires RotationEntries(a, b, c, d, e, f, g, h, i)
    requires 1.0 + a + e + i > 0.0 && s * s == 4.0 * (1.0 + a + e + i)
    requires 4.0 * q.w == s && q.x * s == h - f && q.y * s == c - g && q.z * s == d - b
    ensures Represents(q, a, b, c, d, e, f, g, h, i)
  {
    FromTrace(a, b, c, d, e, f, g, h, i);
    FourProducts(s, 1.0 + a + e + i, q.w, q.x, q.y, q.z, h - f, c - g, d - b,
                 1.0 + a - e - i, 1.0 - a + e - i, 1.0 - a - e + i, b + d, c + g, f + h);
  }

  /** The branch for a largest first diagonal entry, put together. */
  lemma AxisBranch(a: real, b: real, c: real, d: real, e: real, f: real, g: real, h: real, i: real, s: real, q: Quat)
    requires RotationEntries(a, b, c, d, e, f, g, h, i)
    requires 1.0 + a - e - i > 0.0 && s * s == 4.0 * (1.0 + a - e - i)
    requires 4.0 * q.x == s && q.w * s == h - f && q.y * s == b + d && q.z * s == c + g
    ensures Represents(q, a, b, c, d, e, f, g, h, i)
  {
    FromAxis(a, b, c, d, e, f, g, h, i);
    FourProducts(s, 1.0 + a - e - i, q.x, q.w, q.y, q.z, h - f, b + d, c + g,
                 1.0 + a + e + i, 1.0 - a + e - i, 1.0 - a - e + i, c - g, d - b, f + h);
    Reorder(q.x, q.w, q.y, q.z, 1.0 + a - e - i, h - f, b + d, c + g,
            1.0 + a + e + i, 1.0 - a + e - i, 1.0 - a - e + i, c - g, d - b, f + h);
  }

  lemma Reorder(u0: real, u1: real, u2: real, u3: real, n00: real, n01: real, n02: real, n03: real,
                n11: real, n22: real, n33: real, n12: real, n13: real, n23: real)
    requires Products(u0, u1, u2, u3, n00, n01, n02, n03, n11, n22, n33, n12, n13, n23)
    ensures Products(u1, u0, u2, u3, n11, n01, n12, n13, n00, n22, n33, n02, n03, n23)
  {
  }

  /** Represents follows the axes when they are turned x -> y -> z -> x. */
  lemma RepresentsCyclic(q: Quat, a: real, b: real, c: real, d: real, e: real, f: real, g: real, h: real, i: real)
    requires Represents(Quat(q.y, q.z, q.x, q.w), e, f, d, h, i, g, b, c, a)
    ensures Represents(q, a, b, c, d, e, f, g, h, i)
  {
  }

  /** The branch for a largest second diagonal entry: y is the divisor. */
  lemma SecondAxisBranch(a: real, b: real, c: real, d: real, e: real, f: real, g: real, h: real, i: real, s: real, q: Quat)
    requires RotationEntries(a, b, c, d, e, f, g, h, i)
    requires 1.0 + e - a - i > 0.0 && s * s == 4.0 * (1.0 + e - a - i)
    requires 4.0 * q.y == s && q.w * s == c - g && q.x * s == b + d && q.z * s == f + h
    ensures Represents(q, a, b, c, d, e, f, g, h, i)
  {
    CyclicEntries(a, b, c, d, e, f, g, h, i);
    AxisBranch(e, f, d, h, i, g, b, c, a, s, Quat(q.y, q.z, q.x, q.w));
    RepresentsCyclic(q, a, b, c, d, e, f, g, h, i);
  }

  /** The branch for a largest third diagonal entry: z is the divisor. */
  lemma ThirdAxisBranch(a: real, b: real, c: real, d: real, e: real, f: real, g: real, h: real, i: real, s: real, q: Quat)
    requires RotationEntries(a, b, c, d, e, f, g, h, i)
    requires 1.0 + i - a - e > 0.0 && s * s == 4.0 * (1.0 + i - a - e)
    requires 4.0 * q.z == s && q.w * s == d - b && q.x * s == c + g && q.y * s == f + h
    ensures Represents(q, a, b, c, d, e, f, g, h, i)
  {
    CyclicEntries(a, b, c, d, e, f, g, h, i);
    SecondAxisBranch(e, f, d, h, i, g, b, c, a, s, Quat(q.y, q.z, q.x, q.w));
    RepresentsCyclic(q, a, b, c, d, e, f, g, h, i);
  }
}
