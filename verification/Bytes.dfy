/** Byte strings, fixed-width integers and the endian encodings of the wire formats. */
module Bytes {
  type byte = b: int | 0 <= b < 0x100
  type u16 = x: int | 0 <= x < 0x1_0000
  type u32 = x: int | 0 <= x < 0x1_0000_0000

  const ZERO: byte := 0

  function Le16(x: u16): (s: seq<byte>)
    ensures |s| == 2
  {
    [x % 0x100, x / 0x100]
  }

  function FromLe16(b0: byte, b1: byte): u16 {
    b0 + 0x100 * b1
  }

  function Be16(x: u16): (s: seq<byte>)
    ensures |s| == 2
  {
    [x / 0x100, x % 0x100]
  }

  function FromBe16(b0: byte, b1: byte): u16 {
    0x100 * b0 + b1
  }

  function Le32(x: u32): (s: seq<byte>)
    ensures |s| == 4
  {
    [x % 0x100, x / 0x100 % 0x100, x / 0x1_0000 % 0x100, x / 0x100_0000]
  }

  function FromLe32(b0: byte, b1: byte, b2: byte, b3: byte): u32 {
    b0 + 0x100 * b1 + 0x1_0000 * b2 + 0x100_0000 * b3
  }

  function Be32(x: u32): (s: seq<byte>)
    ensures |s| == 4
  {
    [x / 0x100_0000, x / 0x1_0000 % 0x100, x / 0x100 % 0x100, x % 0x100]
  }

  lemma Le16RoundTrip(x: u16)
    ensures FromLe16(Le16(x)[0], Le16(x)[1]) == x
  {
  }

  lemma Be16RoundTrip(x: u16)
    ensures FromBe16(Be16(x)[0], Be16(x)[1]) == x
  {
  }

  lemma Le32RoundTrip(x: u32)
    ensures var s := Le32(x); FromLe32(s[0], s[1], s[2], s[3]) == x
  {
    assert x / 0x1_0000 == x / 0x100 / 0x100;
    assert x / 0x100_0000 == x / 0x1_0000 / 0x100;
  }

  function FromBe32(b0: byte, b1: byte, b2: byte, b3: byte): u32 {
    0x100_0000 * b0 + 0x1_0000 * b1 + 0x100 * b2 + b3
  }

  lemma Be32RoundTrip(x: u32)
    ensures var s := Be32(x); FromBe32(s[0], s[1], s[2], s[3]) == x
  {
    assert x / 0x1_0000 == x / 0x100 / 0x100;
    assert x / 0x100_0000 == x / 0x1_0000 / 0x100;
  }

  /** Which byte comes first. */
  lemma ByteOrder()
    ensures Le16(0x0102) == [2, 1] && Be16(0x0102) == [1, 2]
    ensures Le32(0x0102_0304) == [4, 3, 2, 1] && Be32(0x0102_0304) == [1, 2, 3, 4]
    ensures FromLe16(2, 1) == FromBe16(1, 2) == 0x0102
    ensures FromLe32(4, 3, 2, 1) == FromBe32(1, 2, 3, 4) == 0x0102_0304
  {
  }

  lemma Le16Back(b0: byte, b1: byte)
    ensures Le16(FromLe16(b0, b1)) == [b0, b1]
  {
  }

  lemma Le32Back(b0: byte, b1: byte, b2: byte, b3: byte)
    ensures Le32(FromLe32(b0, b1, b2, b3)) == [b0, b1, b2, b3]
  {
    var x: int := b0 + 0x100 * b1 + 0x1_0000 * b2 + 0x100_0000 * b3;
    assert x / 0x100 == b1 + 0x100 * b2 + 0x1_0000 * b3;
    assert x / 0x1_0000 == b2 + 0x100 * b3;
    assert x / 0x100_0000 == b3;
  }

  function Zeros(n: nat): (s: seq<byte>)
    ensures |s| == n
  {
    seq(n, _ => ZERO)
  }

  /** Concatenation of a list of sequences. */
  function Flatten<T>(parts: seq<seq<T>>): seq<T> {
    if parts == [] then [] else parts[0] + Flatten(parts[1..])
  }

  lemma {:induction false} FlattenAppend<T>(xs: seq<seq<T>>, ys: seq<seq<T>>)
    ensures Flatten(xs + ys) == Flatten(xs) + Flatten(ys)
  {
    if xs == [] {
      assert xs + ys == ys;
    } else {
      FlattenAppend(xs[1..], ys);
      assert (xs + ys)[1..] == xs[1..] + ys;
      assert xs[0] + (Flatten(xs[1..]) + Flatten(ys)) == Flatten(xs) + Flatten(ys);
    }
  }

  lemma ConcatParts<T>(xs: seq<T>, ys: seq<T>)
    requires xs != []
    ensures (xs + ys)[0] == xs[0] && (xs + ys)[1..] == xs[1..] + ys
  {
  }

  lemma FlattenOne<T>(x: seq<T>)
    ensures Flatten([x]) == x
  {
    assert [x][1..] == [];
  }

  lemma {:induction false} FlattenSnoc<T>(xs: seq<seq<T>>, y: seq<T>)
    ensures Flatten(xs + [y]) == Flatten(xs) + y
  {
    FlattenAppend(xs, [y]);
    FlattenOne(y);
  }

  /** n / d rounded up, by repeated subtraction to keep division out of the proofs. */
  function DivCeil(n: nat, d: nat): (q: nat)
    requires d > 0
    ensures q == 0 <==> n == 0
  {
    if n == 0 then 0 else if n <= d then 1 else 1 + DivCeil(n - d, d)
  }

  lemma {:induction false} DivCeilBounds(n: nat, d: nat)
    requires d > 0
    ensures d * DivCeil(n, d) >= n
    ensures n > 0 ==> d * DivCeil(n, d) - d < n
  {
    if n > d {
      DivCeilBounds(n - d, d);
      var q := DivCeil(n - d, d);
      assert d * (1 + q) == d + d * q;
    }
  }

  /** `DivCeil` is the least quotient that covers `n`. */
  lemma DivCeilLeast(n: nat, d: nat, q: nat)
    requires d > 0
    ensures DivCeil(n, d) <= q <==> n <= d * q
  {
    DivCeilBounds(n, d);
    var c := DivCeil(n, d);
    if c <= q {
      MulMonotone(c, q, d);
    } else if n > 0 {
      MulMonotone(q, c - 1, d);
      assert d * (c - 1) == d * c - d;
    }
  }

  lemma MulMonotone(a: int, b: int, k: int)
    requires a <= b && 0 <= k
    ensures k * a <= k * b
  {
  }
}
