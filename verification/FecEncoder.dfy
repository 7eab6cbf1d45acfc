/** The Reed-Solomon wrapper (transport/fec.rs): parity counts, encoder cache, decoder. */
module FecEncoding {
  import opened Options
  import opened ErasureCode

  datatype FecError = EmptyInput | UnequalShards | InsufficientShards | ReedSolomon

  /** `f32::EPSILON`: smaller changes of the redundancy are ignored. */
  const F32_EPSILON: real := 1.0 / 8388608.0

  function Ceil(x: real): int {
    -(-x).Floor
  }

  /** Parity shards added to `dataCount` data shards: always at least one. */
  function ParityFor(dataCount: nat, redundancy: real): (p: nat)
    ensures p >= 1
  {
    var p := Ceil(dataCount as real * redundancy);
    if p < 1 then 1 else p
  }

  /** It is the least positive count that covers the share of the data the redundancy asks for. */
  lemma ParityIsLeast(dataCount: nat, redundancy: real, p: int)
    ensures ParityFor(dataCount, redundancy) <= p <==> p >= 1 && p as real >= dataCount as real * redundancy
  {
    var share := dataCount as real * redundancy;
    CeilLeast(share, p);
  }

  lemma CeilLeast(x: real, n: int)
    ensures Ceil(x) <= n <==> n as real >= x
  {
    var f := (-x).Floor;
    assert f as real <= -x < f as real + 1.0;
    assert n as real >= x <==> -n as real <= -x;
  }

  function LargestFitting(d: nat, redundancy: real): nat {
    if d == 0 then 0
    else if d + ParityFor(d, redundancy) <= RS_MAX_TOTAL_SHARDS then d
    else LargestFitting(d - 1, redundancy)
  }

  /** Largest number of data shards one code word takes at `redundancy`. */
  function MaxDataShards(redundancy: real): nat {
    LargestFitting(RS_MAX_TOTAL_SHARDS - 1, redundancy)
  }

  lemma ParityMonotone(d1: nat, d2: nat, redundancy: real)
    requires d1 <= d2 && redundancy >= 0.0
    ensures ParityFor(d1, redundancy) <= ParityFor(d2, redundancy)
  {
    assert d1 as real * redundancy <= d2 as real * redundancy;
  }

  lemma {:induction false} LargestFittingExact(n: nat, d: nat, redundancy: real)
    requires redundancy >= 0.0 && 1 <= d <= n
    ensures d + ParityFor(d, redundancy) <= RS_MAX_TOTAL_SHARDS <==> d <= LargestFitting(n, redundancy)
    ensures LargestFitting(n, redundancy) <= n
  {
    if n + ParityFor(n, redundancy) <= RS_MAX_TOTAL_SHARDS {
      ParityMonotone(d, n, redundancy);
    } else if d < n {
      LargestFittingExact(n - 1, d, redundancy);
    } else if n > 1 {
      LargestFittingExact(n - 1, 1, redundancy);
    }
  }

  /**
   * A code word takes d data shards exactly when d is at most
   * `MaxDataShards`, which lies between 128 and 255 at every redundancy
   * that `SetRedundancy` can install.
   */
  lemma MaxDataShardsExact(d: nat, redundancy: real)
    requires 0.0 <= redundancy <= 1.0
    ensures d >= 1 ==> (RsAccepts(d, ParityFor(d, redundancy)) <==> d <= MaxDataShards(redundancy))
    ensures 128 <= MaxDataShards(redundancy) <= 255
  {
    if 1 <= d <= 255 {
      LargestFittingExact(255, d, redundancy);
    }
    assert 128.0 * redundancy <= 128.0;
    assert ParityFor(128, redundancy) <= 128;
    LargestFittingExact(255, 128, redundancy);
  }

  /** What encoding `data` at `redundancy` produces: the data, then its parity. */
  function EncodeWord(c: Codec, redundancy: real, data: seq<Shard>): Result<seq<Shard>, FecError> {
    var p := ParityFor(|data|, redundancy);
    if data == [] then Err(EmptyInput)
    else if !Uniform(data, |data[0]|) then Err(UnequalShards)
    else if !RsAccepts(|data|, p) || |data[0]| == 0 then Err(ReedSolomon)
    else Ok(data + c.parity(data, p))
  }

  /** What decoding the shards of one code word produces. */
  function DecodeWord(c: Codec, shards: seq<Option<Shard>>, dataCount: nat): Option<seq<Shard>> {
    if |shards| <= dataCount || !RsAccepts(dataCount, |shards| - dataCount) then None
    else c.reconstruct(shards, dataCount)
  }

  function Clamp01(x: real): (r: real)
    ensures 0.0 <= r <= 1.0
  {
    if x < 0.0 then 0.0 else if x > 1.0 then 1.0 else x
  }

  function AfterSetRedundancy(current: real, requested: real): real {
    var next := Clamp01(requested);
    if next - current > F32_EPSILON || current - next > F32_EPSILON then next else current
  }

  /** Afterwards the redundancy is the one asked for, brought into 0 to 1, but for at most 2^-23. */
  lemma RedundancyFollows(current: real, requested: real)
    ensures
      var wanted := if requested < 0.0 then 0.0 else if requested > 1.0 then 1.0 else requested;
      var after := AfterSetRedundancy(current, requested);
      && -1.0 / 8388608.0 <= after - wanted <= 1.0 / 8388608.0
      && (after == wanted || after == current)
  {
  }

  /** A Reed-Solomon instance is fixed by its shard counts. */
  datatype RsInstance = RsInstance(d: nat, p: nat) {
    function Encode(c: Codec, data: seq<Shard>): seq<Shard> {
      data + c.parity(data, p)
    }
  }

  /** An encoder that keeps its last Reed-Solomon instance. */
  class FecEncoder {
    const codec: Codec
    var redundancy: real
    var cachedRs: Option<RsInstance>
    var cachedDataCount: nat
    var cachedParityCount: nat

    ghost predicate Valid()
      reads this
    {
      && 0.0 <= redundancy <= 1.0
      && (cachedRs.Some? ==>
            && cachedRs.value == RsInstance(cachedDataCount, cachedParityCount)
            && RsAccepts(cachedDataCount, cachedParityCount))
    }

    constructor (codec: Codec, redundancy: real)
      ensures Valid()
      ensures this.codec == codec && this.redundancy == Clamp01(redundancy)
    {
      this.codec := codec;
      this.redundancy := Clamp01(redundancy);
      cachedRs := None;
      cachedDataCount, cachedParityCount := 0, 0;
    }

    /** The cache never shows: the result is that of a fresh instance. */
    method Encode(data: seq<Shard>) returns (r: Result<seq<Shard>, FecError>)
      requires Valid()
      modifies this`cachedRs, this`cachedDataCount, this`cachedParityCount
      ensures Valid()
      ensures r == EncodeWord(codec, redundancy, data)
    {
      if data == [] {
        return Err(EmptyInput);
      }
      var dataCount := |data|;
      var parityCount := ParityFor(dataCount, redundancy);
      if !Uniform(data, |data[0]|) {
        return Err(UnequalShards);
      }
      if cachedRs.None? || cachedDataCount != dataCount || cachedParityCount != parityCount {
        if !RsAccepts(dataCount, parityCount) {
          return Err(ReedSolomon);
        }
        cachedRs := Some(RsInstance(dataCount, parityCount));
        cachedDataCount := dataCount;
        cachedParityCount := parityCount;
      }
      if |data[0]| == 0 {
        return Err(ReedSolomon);
      }
      return Ok(cachedRs.value.Encode(codec, data));
    }

    method SetRedundancy(requested: real)
      requires Valid()
      modifies this
      ensures Valid()
      ensures redundancy == AfterSetRedundancy(old(redundancy), requested)
    {
      var next := Clamp01(requested);
      if next - redundancy > F32_EPSILON || redundancy - next > F32_EPSILON {
        redundancy := next;
        cachedRs := None;
      }
    }
  }
}
