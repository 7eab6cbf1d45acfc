/** How a frame is cut into Reed-Solomon code words (pipeline.rs, `choose_fec_layout`). */
module FecLayout {
  import opened Bytes
  import SliceSplitter

  const FEC_SHARD_SIZE: nat := 1200
  const MIN_SLICE_SIZE: nat := 16_384
  const SLICE_LEN_PREFIX: nat := 4
  const MAX_SLICE_COUNT: nat := 15
  const MAX_FRAME_SHARDS: nat := 4096

  datatype Layout = Bulk | Sliced(count: nat) | Unprotected

  /** Data shards one slice of `sliceLen` bytes needs, length prefix included. */
  function SliceDataShards(sliceLen: nat): nat {
    DivCeil(sliceLen + SLICE_LEN_PREFIX, FEC_SHARD_SIZE)
  }

  predicate SlicingApplies(frameLen: nat, sliceFecEnabled: bool) {
    sliceFecEnabled && frameLen >= MIN_SLICE_SIZE
  }

  /** The smallest slice count the search starts from. */
  function FewestSlices(frameLen: nat, sliceFecEnabled: bool, sliceCount: nat): (n: nat)
    ensures 1 <= n <= MAX_SLICE_COUNT
  {
    if !SlicingApplies(frameLen, sliceFecEnabled) || sliceCount < 1 then 1
    else if sliceCount > MAX_SLICE_COUNT then MAX_SLICE_COUNT
    else sliceCount
  }

  predicate LargestSliceFits(frameLen: nat, n: nat, maxDataShards: nat)
    requires n > 0
  {
    SliceDataShards(DivCeil(frameLen, n)) <= maxDataShards
  }

  function FirstFit(frameLen: nat, n: nat, maxDataShards: nat): (layout: Layout)
    requires 1 <= n
    ensures !layout.Bulk? && (layout.Sliced? ==> n <= layout.count <= MAX_SLICE_COUNT)
    decreases MAX_SLICE_COUNT + 1 - n
  {
    if n > MAX_SLICE_COUNT then Unprotected
    else if LargestSliceFits(frameLen, n, maxDataShards) then Sliced(n)
    else FirstFit(frameLen, n + 1, maxDataShards)
  }

  function ChooseFecLayout(frameLen: nat, sliceFecEnabled: bool, sliceCount: nat, maxDataShards: nat): Layout {
    if !SlicingApplies(frameLen, sliceFecEnabled) && DivCeil(frameLen, FEC_SHARD_SIZE) <= maxDataShards then
      Bulk
    else
      FirstFit(frameLen, FewestSlices(frameLen, sliceFecEnabled, sliceCount), maxDataShards)
  }

  /** Slice bytes one code word of `maxDataShards` data shards can carry. */
  function SliceCapacity(maxDataShards: nat): nat
    requires maxDataShards >= 1
  {
    FEC_SHARD_SIZE * maxDataShards - SLICE_LEN_PREFIX
  }

  /** n slices fit exactly when the frame is at most n times what one code word carries. */
  lemma FitsExactly(frameLen: nat, n: nat, maxDataShards: nat)
    requires n > 0 && maxDataShards >= 1
    ensures LargestSliceFits(frameLen, n, maxDataShards) <==> frameLen <= n * SliceCapacity(maxDataShards)
  {
    DivCeilLeast(DivCeil(frameLen, n) + SLICE_LEN_PREFIX, FEC_SHARD_SIZE, maxDataShards);
    DivCeilLeast(frameLen, n, SliceCapacity(maxDataShards));
  }

  lemma {:induction false} FirstFitExactly(frameLen: nat, n: nat, maxDataShards: nat)
    requires 1 <= n <= MAX_SLICE_COUNT && maxDataShards >= 1
    ensures FirstFit(frameLen, n, maxDataShards) ==
      var least := DivCeil(frameLen, SliceCapacity(maxDataShards));
      var k := if n < least then least else n;
      if k <= MAX_SLICE_COUNT then Sliced(k) else Unprotected
    decreases MAX_SLICE_COUNT - n
  {
    FitsExactly(frameLen, n, maxDataShards);
    DivCeilLeast(frameLen, SliceCapacity(maxDataShards), n);
    assert n * SliceCapacity(maxDataShards) == SliceCapacity(maxDataShards) * n;
    if n < MAX_SLICE_COUNT && !LargestSliceFits(frameLen, n, maxDataShards) {
      FirstFitExactly(frameLen, n + 1, maxDataShards);
    }
  }

  /**
   * The whole choice in closed form: bulk when slicing does not apply and one
   * code word holds the frame; otherwise the larger of the requested count and
   * ceil(len / capacity) slices, unless that is more than 15.
   */
  lemma LayoutClosedForm(frameLen: nat, enabled: bool, sliceCount: nat, max: nat)
    requires max >= 1
    ensures
      var layout := ChooseFecLayout(frameLen, enabled, sliceCount, max);
      var least := DivCeil(frameLen, SliceCapacity(max));
      var from := FewestSlices(frameLen, enabled, sliceCount);
      && (layout.Bulk? <==> !SlicingApplies(frameLen, enabled) && frameLen <= FEC_SHARD_SIZE * max)
      && (layout.Unprotected? <==> frameLen > MAX_SLICE_COUNT * SliceCapacity(max))
      && (layout.Sliced? ==> layout.count == (if from < least then least else from) <= MAX_SLICE_COUNT)
  {
    var from := FewestSlices(frameLen, enabled, sliceCount);
    FirstFitExactly(frameLen, from, max);
    DivCeilLeast(frameLen, FEC_SHARD_SIZE, max);
    DivCeilLeast(frameLen, SliceCapacity(max), MAX_SLICE_COUNT);
  }

  /**
   * `Sliced(n)` cuts the frame into n slices that all fit one code word, prefix
   * included, and any smaller allowed count leaves a slice that does not.
   */
  lemma SlicedIsLeastFit(frame: seq<byte>, enabled: bool, sliceCount: nat, max: nat, k: nat)
    requires ChooseFecLayout(|frame|, enabled, sliceCount, max).Sliced?
    requires FewestSlices(|frame|, enabled, sliceCount) <= k
    ensures
      var n := ChooseFecLayout(|frame|, enabled, sliceCount, max).count;
      && (forall i | 0 <= i < n :: SliceDataShards(|SliceSplitter.Slices(frame, n)[i]|) <= max)
      && (k < n ==> exists i | 0 <= i < k :: SliceDataShards(|SliceSplitter.Slices(frame, k)[i]|) > max)
  {
    var from := FewestSlices(|frame|, enabled, sliceCount);
    var n := ChooseFecLayout(|frame|, enabled, sliceCount, max).count;
    FirstFitLeast(|frame|, from, max, k);
    forall i | 0 <= i < n
      ensures SliceDataShards(|SliceSplitter.Slices(frame, n)[i]|) <= max
    {
      SliceSplitter.FirstSliceLargest(frame, n, i);
      SliceDataShardsMonotone(|SliceSplitter.Slices(frame, n)[i]|, DivCeil(|frame|, n));
    }
    if k < n {
      SliceSplitter.FirstSliceLargest(frame, k, 0);
      assert SliceDataShards(|SliceSplitter.Slices(frame, k)[0]|) > max;
    }
  }

  lemma SliceDataShardsMonotone(a: nat, b: nat)
    requires a <= b
    ensures SliceDataShards(a) <= SliceDataShards(b)
  {
    DivCeilBounds(b + SLICE_LEN_PREFIX, FEC_SHARD_SIZE);
    DivCeilLeast(a + SLICE_LEN_PREFIX, FEC_SHARD_SIZE, SliceDataShards(b));
  }

  lemma {:induction false} FirstFitLeast(frameLen: nat, from: nat, max: nat, k: nat)
    requires 1 <= from <= k && FirstFit(frameLen, from, max).Sliced?
    ensures
      var n := FirstFit(frameLen, from, max).count;
      && from <= n <= MAX_SLICE_COUNT
      && LargestSliceFits(frameLen, n, max)
      && (k < n ==> !LargestSliceFits(frameLen, k, max))
    decreases MAX_SLICE_COUNT + 1 - from
  {
    if from <= MAX_SLICE_COUNT && !LargestSliceFits(frameLen, from, max) {
      FirstFitLeast(frameLen, from + 1, max, if k == from then from + 1 else k);
    }
  }

  /** Cut n ways, each slice fits in 1200 * max bytes with its four bytes of length. */
  predicate CountFits(frameLen: nat, n: nat, max: nat) {
    frameLen <= n * (1200 * max - 4)
  }

  /** The first count from `from` to 15 that fits; none above 15. */
  predicate FirstThatFits(layout: Layout, frameLen: nat, from: nat, max: nat)
    requires max >= 1
  {
    match layout
    case Bulk => false
    case Sliced(n) =>
      from <= n <= 15 && CountFits(frameLen, n, max) && forall k :: from <= k < n ==> !CountFits(frameLen, k, max)
    case Unprotected => !CountFits(frameLen, 15, max)
  }

  lemma FirstFitIsFirst(frameLen: nat, from: nat, max: nat)
    requires 1 <= from <= 15 && max >= 1
    ensures FirstThatFits(FirstFit(frameLen, from, max), frameLen, from, max)
  {
    var capacity := SliceCapacity(max);
    var layout := FirstFit(frameLen, from, max);
    FirstFitExactly(frameLen, from, max);
    DivCeilLeast(frameLen, capacity, MAX_SLICE_COUNT);
    if layout.Sliced? {
      FirstFitLeast(frameLen, from, max, layout.count);
      FitsExactly(frameLen, layout.count, max);
      forall k | from <= k < layout.count
        ensures !CountFits(frameLen, k, max)
      {
        FirstFitLeast(frameLen, from, max, k);
        FitsExactly(frameLen, k, max);
      }
    }
  }

  /**
   * With slicing on, a frame of at least 16384 bytes is never bulk: it gets the first count that fits from the
   * configured one (1 for none, 15 for more). Any other frame is bulk exactly if one code word holds it, and
   * else gets the first count that fits from 1. Past 15 slices it goes unprotected.
   */
  lemma LayoutRule(frameLen: nat, enabled: bool, sliceCount: nat, max: nat)
    requires max >= 1
    ensures
      var layout := ChooseFecLayout(frameLen, enabled, sliceCount, max);
      if enabled && frameLen >= 16_384 then
        FirstThatFits(layout, frameLen, if sliceCount == 0 then 1 else if sliceCount > 15 then 15 else sliceCount, max)
      else if frameLen <= 1200 * max then layout == Bulk
      else FirstThatFits(layout, frameLen, 1, max)
  {
    DivCeilLeast(frameLen, FEC_SHARD_SIZE, max);
    FirstFitIsFirst(frameLen, if sliceCount == 0 then 1 else if sliceCount > 15 then 15 else sliceCount, max);
    FirstFitIsFirst(frameLen, 1, max);
  }

  /** In particular the configured count is used whenever it fits. */
  lemma ConfiguredCountUsed(frameLen: nat, sliceCount: nat, max: nat)
    requires max >= 1 && frameLen >= 16_384 && 1 <= sliceCount <= 15 && CountFits(frameLen, sliceCount, max)
    ensures ChooseFecLayout(frameLen, true, sliceCount, max) == Sliced(sliceCount)
  {
    LayoutRule(frameLen, true, sliceCount, max);
    MulMonotone(sliceCount, 15, 1200 * max - 4);
  }
}
