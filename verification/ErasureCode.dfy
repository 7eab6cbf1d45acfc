/**
 * The Reed-Solomon library as the pipeline sees it: a parity function and a
 * reconstruction function. What the library promises is stated as predicates
 * that the delivery theorems take as hypotheses; `XorCode` shows that they can
 * be met.
 */
module ErasureCode {
  import opened Options
  import opened Bytes

  type Shard = seq<byte>

  /** `parity(data, p)` computes p parity shards; `reconstruct(held, d)` the d data shards. */
  datatype Codec = Codec(
    parity: (seq<Shard>, nat) -> seq<Shard>,
    reconstruct: (seq<Option<Shard>>, nat) -> Option<seq<Shard>>)

  /** Code words over GF(2^8) hold at most this many shards. */
  const RS_MAX_TOTAL_SHARDS: nat := 256

  /** Counts `ReedSolomon::new` accepts. */
  predicate RsAccepts(d: nat, p: nat) {
    d > 0 && p > 0 && d + p <= RS_MAX_TOTAL_SHARDS
  }

  predicate Uniform(shards: seq<Shard>, len: nat) {
    forall i | 0 <= i < |shards| :: |shards[i]| == len
  }

  /** The indices of the shards that arrived. */
  function HeldIndices(held: seq<Option<Shard>>): set<nat> {
    set i: nat | i < |held| && held[i].Some?
  }

  /** `held` is the code word `word` with some shards missing and none altered. */
  predicate ErasureOf(held: seq<Option<Shard>>, word: seq<Shard>) {
    && |held| == |word|
    && forall i | 0 <= i < |held| :: held[i].Some? ==> held[i].value == word[i]
  }

  /** Parity has the requested number of shards, as long as the data shards. */
  ghost predicate ParityShaped(c: Codec) {
    forall data: seq<Shard>, p: nat, len: nat {:trigger c.parity(data, p), Uniform(data, len)} |
      RsAccepts(|data|, p) && Uniform(data, len) ::
      |c.parity(data, p)| == p && Uniform(c.parity(data, p), len)
  }

  /** Any d shards of a code word of d data and p parity shards determine the data. */
  ghost predicate AnyDRecover(c: Codec, d: nat, p: nat) {
    forall data: seq<Shard>, len: nat, held: seq<Option<Shard>>
      {:trigger Uniform(data, len), c.reconstruct(held, d)} |
      && |data| == d && len > 0 && Uniform(data, len)
      && ErasureOf(held, data + c.parity(data, p))
      && |HeldIndices(held)| >= d
      :: c.reconstruct(held, d) == Some(data)
  }
}

/** One XOR parity shard: a code that meets the hypotheses of `ErasureCode` at p = 1. */
module XorCode {
  import opened Options
  import opened Bytes
  import opened ErasureCode

  function Pow2(n: nat): nat {
    if n == 0 then 1 else 2 * Pow2(n - 1)
  }

  /** Bitwise exclusive or of the low n bits. */
  function XorBits(n: nat, a: nat, b: nat): (x: nat)
    ensures x < Pow2(n)
  {
    if n == 0 then 0 else (if a % 2 == b % 2 then 0 else 1) + 2 * XorBits(n - 1, a / 2, b / 2)
  }

  function Xor(a: byte, b: byte): byte {
    assert Pow2(8) == 0x100 by { assert Pow2(4) == 16; }
    XorBits(8, a, b)
  }

  lemma XorBitsStep(n: nat, a: nat, b: nat)
    requires n > 0
    ensures XorBits(n, a, b) % 2 == if a % 2 == b % 2 then 0 else 1
    ensures XorBits(n, a, b) / 2 == XorBits(n - 1, a / 2, b / 2)
  {
  }

  lemma {:induction false} XorBitsAssociative(n: nat, a: nat, b: nat, c: nat)
    ensures XorBits(n, XorBits(n, a, b), c) == XorBits(n, a, XorBits(n, b, c))
  {
    if n > 0 {
      var ab, bc := XorBits(n, a, b), XorBits(n, b, c);
      XorBitsStep(n, a, b);
      XorBitsStep(n, b, c);
      XorBitsStep(n, ab, c);
      XorBitsStep(n, a, bc);
      XorBitsAssociative(n - 1, a / 2, b / 2, c / 2);
    }
  }

  lemma {:induction false} XorBitsCancels(n: nat, a: nat, b: nat)
    requires a < Pow2(n)
    ensures XorBits(n, XorBits(n, a, b), b) == a
  {
    if n > 0 {
      XorBitsCancels(n - 1, a / 2, b / 2);
      XorBitsStep(n, a, b);
    }
  }

  lemma {:induction false} XorBitsCommutes(n: nat, a: nat, b: nat)
    ensures XorBits(n, a, b) == XorBits(n, b, a)
  {
    if n > 0 {
      XorBitsCommutes(n - 1, a / 2, b / 2);
    }
  }

  lemma XorLaws(a: byte, b: byte, c: byte)
    ensures Xor(Xor(a, b), c) == Xor(a, Xor(b, c))
    ensures Xor(a, b) == Xor(b, a)
    ensures Xor(Xor(a, b), b) == a
    ensures Xor(0, a) == a
  {
    XorBitsAssociative(8, a, b, c);
    XorBitsCommutes(8, a, b);
    assert Pow2(8) == 0x100 by { assert Pow2(4) == 16; }
    XorBitsCancels(8, a, b);
    XorBitsCancels(8, 0, a);
    XorBitsCancels(8, a, a);
    XorBitsCommutes(8, a, XorBits(8, a, a));
    XorBitsAssociative(8, a, a, a);
    XorBitsCommutes(8, 0, a);
    XorBitsCancels(8, a, 0);
    ZeroNeutral(8, a);
  }

  lemma {:induction false} ZeroNeutral(n: nat, a: nat)
    requires a < Pow2(n)
    ensures XorBits(n, 0, a) == a
  {
    if n > 0 {
      ZeroNeutral(n - 1, a / 2);
    }
  }

  /** XOR of byte j of every shard. */
  function ParityByte(shards: seq<Shard>, j: nat): byte {
    if shards == [] then 0
    else Xor(if j < |shards[0]| then shards[0][j] else 0, ParityByte(shards[1..], j))
  }

  function ParityShard(shards: seq<Shard>): Shard {
    seq(if shards == [] then 0 else |shards[0]|, j requires 0 <= j => ParityByte(shards, j))
  }

  function Present(held: seq<Option<Shard>>): seq<Shard> {
    if held == [] then []
    else (if held[0].Some? then [held[0].value] else []) + Present(held[1..])
  }

  function Parity(data: seq<Shard>, p: nat): seq<Shard> {
    seq(p, _ => ParityShard(data))
  }

  /** The missing data shard, if one is missing, is the XOR of all the others. */
  function Reconstruct(held: seq<Option<Shard>>, d: nat): Option<seq<Shard>> {
    if |held| != d + 1 || |HeldIndices(held)| < d then None
    else
      var fill := ParityShard(Present(held));
      Some(seq(d, i requires 0 <= i < d => if held[i].Some? then held[i].value else fill))
  }

  const XOR_CODEC: Codec := Codec(Parity, Reconstruct)

  lemma {:induction false} ParityByteSnoc(shards: seq<Shard>, last: Shard, j: nat)
    requires j < |last|
    ensures ParityByte(shards + [last], j) == Xor(ParityByte(shards, j), last[j])
  {
    if shards == [] {
      assert (shards + [last])[1..] == [];
      XorLaws(last[j], 0, 0);
    } else {
      assert (shards + [last])[1..] == shards[1..] + [last];
      ParityByteSnoc(shards[1..], last, j);
      XorLaws(if j < |shards[0]| then shards[0][j] else 0, ParityByte(shards[1..], j), last[j]);
    }
  }

  /** A code word's bytes cancel out position by position. */
  lemma CodeWordCancels(data: seq<Shard>, len: nat, j: nat)
    requires |data| > 0 && Uniform(data, len) && j < len
    ensures ParityByte(data + Parity(data, 1), j) == 0
  {
    assert Parity(data, 1) == [ParityShard(data)];
    ParityByteSnoc(data, ParityShard(data), j);
    var p := ParityByte(data, j);
    assert ParityShard(data)[j] == p;
    assert ParityByte(data + Parity(data, 1), j) == Xor(p, p);
    XorLaws(0, p, 0);
    XorLaws(p, 0, 0);
  }

  lemma {:induction false} AllPresent(held: seq<Option<Shard>>, word: seq<Shard>)
    requires ErasureOf(held, word) && forall i | 0 <= i < |held| :: held[i].Some?
    ensures Present(held) == word
  {
    if held != [] {
      AllPresent(held[1..], word[1..]);
    }
  }

  /** Adding the one missing shard to the others gives the whole word's parity. */
  lemma {:induction false} OneMissing(held: seq<Option<Shard>>, word: seq<Shard>, len: nat, k: nat, j: nat)
    requires ErasureOf(held, word) && Uniform(word, len) && j < len
    requires k < |held| && held[k].None? && forall i | 0 <= i < |held| && i != k :: held[i].Some?
    ensures Xor(ParityByte(Present(held), j), word[k][j]) == ParityByte(word, j)
  {
    var rest := ParityByte(Present(held[1..]), j);
    if k == 0 {
      AllPresent(held[1..], word[1..]);
      assert Present(held) == Present(held[1..]);
      XorLaws(rest, word[0][j], 0);
    } else {
      OneMissing(held[1..], word[1..], len, k - 1, j);
      assert Present(held) == [word[0]] + Present(held[1..]);
      assert Present(held)[1..] == Present(held[1..]);
      XorLaws(word[0][j], rest, word[k][j]);
    }
  }

  lemma AtMostOneMissing(held: seq<Option<Shard>>, d: nat, k: nat)
    requires |held| == d + 1 && |HeldIndices(held)| >= d
    requires k < |held| && held[k].None?
    ensures forall i | 0 <= i < |held| && i != k :: held[i].Some?
  {
    forall i | 0 <= i < |held| && i != k
      ensures held[i].Some?
    {
      if held[i].None? {
        var indices := HeldIndices(held) + {i, k};
        assert |indices| == |HeldIndices(held)| + 2;
        IndicesBelow(indices, d + 1);
      }
    }
  }

  lemma {:induction false} IndicesBelow(s: set<nat>, n: nat)
    requires forall i | i in s :: i < n
    ensures |s| <= n
  {
    if n == 0 {
      assert s == {};
    } else {
      IndicesBelow(s - {n - 1}, n - 1);
    }
  }

  lemma {:induction false} PresentUniform(held: seq<Option<Shard>>, word: seq<Shard>, len: nat)
    requires ErasureOf(held, word) && Uniform(word, len)
    ensures Uniform(Present(held), len)
  {
    if held != [] {
      PresentUniform(held[1..], word[1..], len);
    }
  }

  /** The XOR code recovers the data of a code word from any d of its d + 1 shards. */
  lemma XorRecovers(d: nat)
    requires d > 0
    ensures AnyDRecover(XOR_CODEC, d, 1)
  {
    forall data: seq<Shard>, len: nat, held: seq<Option<Shard>> |
      && |data| == d && len > 0 && Uniform(data, len)
      && ErasureOf(held, data + XOR_CODEC.parity(data, 1))
      && |HeldIndices(held)| >= d
      ensures XOR_CODEC.reconstruct(held, d) == Some(data)
    {
      XorRecoversOne(data, len, held);
    }
  }

  lemma XorRecoversOne(data: seq<Shard>, len: nat, held: seq<Option<Shard>>)
    requires |data| > 0 && len > 0 && Uniform(data, len)
    requires ErasureOf(held, data + Parity(data, 1)) && |HeldIndices(held)| >= |data|
    ensures Reconstruct(held, |data|) == Some(data)
  {
    var word := data + Parity(data, 1);
    var result := Reconstruct(held, |data|).value;
    forall i | 0 <= i < |data|
      ensures result[i] == data[i]
    {
      if held[i].None? {
        AtMostOneMissing(held, |data|, i);
        PresentUniform(held, word, len);
        var fill := ParityShard(Present(held));
        SomePresent(held, if i == 0 then 1 else 0);
        assert |fill| == len;
        forall j | 0 <= j < len
          ensures fill[j] == data[i][j]
        {
          OneMissing(held, word, len, i, j);
          CodeWordCancels(data, len, j);
          XorLaws(fill[j], data[i][j], 0);
          XorLaws(0, data[i][j], 0);
          XorLaws(data[i][j], 0, 0);
        }
        assert fill == data[i];
      } else {
        assert held[i].value == word[i];
      }
    }
    assert result == data;
  }

  lemma {:induction false} SomePresent(held: seq<Option<Shard>>, i: nat)
    requires i < |held| && held[i].Some?
    ensures Present(held) != []
  {
    if i > 0 {
      SomePresent(held[1..], i - 1);
    }
  }

  lemma XorShaped()
    ensures ParityShaped(XOR_CODEC)
  {
  }
}
