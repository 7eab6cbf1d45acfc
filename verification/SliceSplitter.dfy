/** Cutting a frame into contiguous slices (transport/slice.rs). */
module SliceSplitter {
  import opened Bytes

  // Quotient and remainder by repeated subtraction: the same numbers as `/` and `%`
  // (QuotientIsDivision), but without division by a variable in every proof about slices.

  function Quotient(n: nat, d: nat): nat
    requires d > 0
  {
    if n < d then 0 else 1 + Quotient(n - d, d)
  }

  function Remainder(n: nat, d: nat): nat
    requires d > 0
  {
    if n < d then n else Remainder(n - d, d)
  }

  lemma {:induction false} QuotientIsDivision(n: nat, d: nat)
    requires d > 0
    ensures Quotient(n, d) == n / d && Remainder(n, d) == n % d
    ensures n == d * Quotient(n, d) + Remainder(n, d) && Remainder(n, d) < d
  {
    if n < d {
      DivisionIs(n, d, 0, n);
    } else {
      QuotientIsDivision(n - d, d);
      var q := Quotient(n - d, d);
      assert d * (1 + q) == d + d * q;
      DivisionIs(n, d, 1 + q, Remainder(n, d));
    }
  }

  lemma DivisionIs(n: nat, d: nat, q: nat, r: nat)
    requires r < d && n == d * q + r
    ensures n / d == q && n % d == r
  {
    var q', r' := n / d, n % d;
    assert d * (q - q') == r' - r;
    if q > q' {
      MulMonotone(1, q - q', d);
    } else if q < q' {
      MulMonotone(q - q', -1, d);
    }
  }

  lemma {:induction false} DivCeilQuotient(n: nat, d: nat)
    requires d > 0
    ensures DivCeil(n, d) == Quotient(n, d) + if Remainder(n, d) > 0 then 1 else 0
    ensures n >= d ==> Quotient(n, d) > 0
  {
    if n > d {
      DivCeilQuotient(n - d, d);
    }
  }

  /** Bytes in slice `i`: the remainder goes one byte each to the first slices. */
  function SliceSize(base: nat, remainder: nat, i: nat): nat {
    base + if i < remainder then 1 else 0
  }

  /** Where slice `i` starts. */
  function Offset(base: nat, remainder: nat, i: nat): nat {
    if i == 0 then 0 else Offset(base, remainder, i - 1) + SliceSize(base, remainder, i - 1)
  }

  lemma {:induction false} OffsetMonotone(base: nat, remainder: nat, i: nat, j: nat)
    requires i <= j
    ensures Offset(base, remainder, i) <= Offset(base, remainder, j)
    decreases j - i
  {
    if i < j {
      OffsetMonotone(base, remainder, i, j - 1);
    }
  }

  lemma {:induction false} OffsetClosedForm(base: nat, remainder: nat, i: nat)
    ensures Offset(base, remainder, i) == base * i + if i < remainder then i else remainder
  {
    if i > 0 {
      OffsetClosedForm(base, remainder, i - 1);
      assert base * i == base * (i - 1) + base;
    }
  }

  /** Slice `i` of `count` lies inside a frame of `len` bytes, and the last one ends it. */
  lemma OffsetsCover(len: nat, count: nat, i: nat)
    requires i <= count && count > 0
    ensures Offset(Quotient(len, count), Remainder(len, count), i) <= len
    ensures Offset(Quotient(len, count), Remainder(len, count), count) == len
  {
    QuotientIsDivision(len, count);
    OffsetMonotone(Quotient(len, count), Remainder(len, count), i, count);
    OffsetClosedForm(Quotient(len, count), Remainder(len, count), count);
  }

  function SliceAt(data: seq<byte>, base: nat, remainder: nat, i: nat): (s: seq<byte>)
    requires Offset(base, remainder, i + 1) <= |data|
    ensures |s| == SliceSize(base, remainder, i)
  {
    data[Offset(base, remainder, i)..Offset(base, remainder, i + 1)]
  }

  /** The first `n` slices. */
  function FirstSlices(data: seq<byte>, base: nat, remainder: nat, n: nat): (s: seq<seq<byte>>)
    requires Offset(base, remainder, n) <= |data|
    ensures |s| == n
  {
    if n == 0 then []
    else FirstSlices(data, base, remainder, n - 1) + [SliceAt(data, base, remainder, n - 1)]
  }

  /** The slices `Split` produces for a non-empty frame and a positive count. */
  function Slices(data: seq<byte>, count: nat): (s: seq<seq<byte>>)
    requires count > 0
    ensures |s| == count
  {
    OffsetsCover(|data|, count, count);
    FirstSlices(data, Quotient(|data|, count), Remainder(|data|, count), count)
  }

  lemma {:induction false} FirstSlicesAt(data: seq<byte>, base: nat, remainder: nat, n: nat, i: nat)
    requires i < n && Offset(base, remainder, n) <= |data|
    ensures Offset(base, remainder, i + 1) <= |data|
    ensures FirstSlices(data, base, remainder, n)[i] == SliceAt(data, base, remainder, i)
  {
    if i < n - 1 {
      FirstSlicesAt(data, base, remainder, n - 1, i);
    }
  }

  method Split(data: seq<byte>, count: nat) returns (slices: seq<seq<byte>>)
    ensures slices == if count == 0 || data == [] then [data] else Slices(data, count)
  {
    if count == 0 || data == [] {
      return [data];
    }
    var baseSize, remainder := |data| / count, |data| % count;
    QuotientIsDivision(|data|, count);
    OffsetsCover(|data|, count, count);
    slices := [];
    var offset := 0;
    for i := 0 to count
      invariant Offset(baseSize, remainder, i) <= |data|
      invariant offset == Offset(baseSize, remainder, i)
      invariant slices == FirstSlices(data, baseSize, remainder, i)
    {
      var size := if i < remainder then baseSize + 1 else baseSize;
      OffsetsCover(|data|, count, i + 1);
      if offset + size <= |data| {
        slices := slices + [data[offset..offset + size]];
      } else {
        assert false;  // the source's two fallback branches are never taken
      }
      offset := offset + size;
    }
  }

  lemma {:induction false} FlattenFirst(data: seq<byte>, base: nat, remainder: nat, n: nat)
    requires Offset(base, remainder, n) <= |data|
    ensures Flatten(FirstSlices(data, base, remainder, n)) == data[..Offset(base, remainder, n)]
  {
    if n > 0 {
      FlattenFirst(data, base, remainder, n - 1);
      FlattenSnoc(FirstSlices(data, base, remainder, n - 1), SliceAt(data, base, remainder, n - 1));
    }
  }

  /** Concatenating the slices gives the frame back. */
  lemma SlicesConcatenate(data: seq<byte>, count: nat)
    requires count > 0
    ensures Flatten(Slices(data, count)) == data
  {
    OffsetsCover(|data|, count, count);
    FlattenFirst(data, Quotient(|data|, count), Remainder(|data|, count), count);
  }

  /** The first slice is the largest, and holds ceil(len / count) bytes. */
  lemma FirstSliceLargest(data: seq<byte>, count: nat, i: nat)
    requires i < count
    ensures |Slices(data, count)[i]| <= |Slices(data, count)[0]| == DivCeil(|data|, count)
    ensures |data| >= count ==> |Slices(data, count)[i]| > 0
  {
    var base, remainder := Quotient(|data|, count), Remainder(|data|, count);
    OffsetsCover(|data|, count, count);
    FirstSlicesAt(data, base, remainder, count, i);
    FirstSlicesAt(data, base, remainder, count, 0);
    DivCeilQuotient(|data|, count);
  }

  /** Slice lengths differ by at most one byte, the longer ones first. */
  lemma SliceLengths(data: seq<byte>, count: nat, i: nat)
    requires i < count
    ensures |Slices(data, count)[i]| == |data| / count + if i < |data| % count then 1 else 0
  {
    OffsetsCover(|data|, count, count);
    FirstSlicesAt(data, Quotient(|data|, count), Remainder(|data|, count), count, i);
    QuotientIsDivision(|data|, count);
  }
}
