/** Encoding a frame into FEC-protected packets (pipeline.rs, sender half). */
module FrameSender {
  import opened Options
  import opened Bytes
  import opened ErasureCode
  import opened FecEncoding
  import opened FecLayout
  import opened VideoPacket

  // ---- data shards ----

  /** The shards of `data`, the last one filled up with zeros. */
  function ToDataShards(data: seq<byte>): seq<Shard> {
    if data == [] then []
    else if |data| <= FEC_SHARD_SIZE then [data + Zeros(FEC_SHARD_SIZE - |data|)]
    else [data[..FEC_SHARD_SIZE]] + ToDataShards(data[FEC_SHARD_SIZE..])
  }

  /** Padding that fills `len` bytes up to whole shards. */
  function Padding(len: nat): nat {
    DivCeilBounds(len, FEC_SHARD_SIZE);
    FEC_SHARD_SIZE * DivCeil(len, FEC_SHARD_SIZE) - len
  }

  lemma {:induction false} DataShards(data: seq<byte>)
    ensures |ToDataShards(data)| == DivCeil(|data|, FEC_SHARD_SIZE)
    ensures Uniform(ToDataShards(data), FEC_SHARD_SIZE)
    ensures Flatten(ToDataShards(data)) == data + Zeros(Padding(|data|))
  {
    if data == [] {
    } else if |data| <= FEC_SHARD_SIZE {
      FlattenOne(data + Zeros(FEC_SHARD_SIZE - |data|));
    } else {
      var rest := data[FEC_SHARD_SIZE..];
      DataShards(rest);
      assert DivCeil(|data|, FEC_SHARD_SIZE) == 1 + DivCeil(|rest|, FEC_SHARD_SIZE);
      assert ToDataShards(data)[1..] == ToDataShards(rest);
      assert data[..FEC_SHARD_SIZE] + (rest + Zeros(Padding(|rest|))) == data + Zeros(Padding(|data|));
    }
  }

  // ---- code words ----

  /** One Reed-Solomon code word of a frame, with the flags its packets carry. */
  datatype CodeWord = CodeWord(shards: seq<Shard>, dataCount: nat, flags: u16)

  /** Packets sent for a code word: none if receivers would reject it. */
  function BatchSize(w: CodeWord): nat {
    if |w.shards| <= VideoPacket.MAX_FRAME_SHARDS then |w.shards| else 0
  }

  function WordBatch(w: CodeWord, frameIndex: u32, timestamp: u32, first: u16): (b: seq<seq<byte>>)
    ensures |b| == BatchSize(w)
  {
    Batch(w.shards, w.dataCount % 0x1_0000, frameIndex, timestamp, w.flags, first)
  }

  /** Packets sent for all of `words`. */
  function TotalShards(words: seq<CodeWord>): nat {
    if words == [] then 0 else TotalShards(words[..|words| - 1]) + BatchSize(words[|words| - 1])
  }

  /** The sequence number after `words`, numbered from `first`. */
  function NextSequence(words: seq<CodeWord>, first: u16): u16 {
    Advance(first, TotalShards(words))
  }

  /** A frame's code words in send order, numbered consecutively. */
  function NumberedBatches(words: seq<CodeWord>, frameIndex: u32, timestamp: u32, first: u16): (b: seq<seq<seq<byte>>>)
    ensures |b| == |words|
  {
    if words == [] then []
    else
      var before := words[..|words| - 1];
      NumberedBatches(before, frameIndex, timestamp, first)
      + [WordBatch(words[|words| - 1], frameIndex, timestamp, NextSequence(before, first))]
  }

  function PlainWord(frame: seq<byte>, isKeyframe: bool): CodeWord {
    CodeWord(ToDataShards(frame), |ToDataShards(frame)|, EncodeSimpleFlags(isKeyframe))
  }

  /** The whole frame as one code word; without parity if the encoder fails. */
  function BulkWord(c: Codec, redundancy: real, frame: seq<byte>, isKeyframe: bool): CodeWord {
    match EncodeWord(c, redundancy, ToDataShards(frame))
    case Ok(all) => CodeWord(all, |ToDataShards(frame)|, EncodeSimpleFlags(isKeyframe))
    case Err(_) => PlainWord(frame, isKeyframe)
  }

  /** A slice with its length in front. */
  function Prefixed(slice: seq<byte>): seq<byte> {
    Le32(|slice| % 0x1_0000_0000) + slice
  }

  /** The code word of slice `i`, if its shards can be encoded. */
  function SliceWord(c: Codec, redundancy: real, slices: seq<seq<byte>>, isKeyframe: bool, i: nat): Option<CodeWord>
    requires i < |slices| <= MAX_SLICE_COUNT
  {
    var shards := ToDataShards(Prefixed(slices[i]));
    match EncodeWord(c, redundancy, shards)
    case Err(_) => None
    case Ok(all) => Some(CodeWord(all, |shards|, EncodeFlags(isKeyframe, i, |slices|, 0)))
  }

  /** The slices encoded up to the first failure, if there is one. */
  datatype SliceRun = SliceRun(words: seq<CodeWord>, complete: bool)

  function EncodeSlices(c: Codec, redundancies: seq<real>, slices: seq<seq<byte>>, isKeyframe: bool, i: nat): SliceRun
    requires i <= |slices| <= |redundancies| && |slices| <= MAX_SLICE_COUNT
    decreases |slices| - i
  {
    if i == |slices| then SliceRun([], true)
    else
      match SliceWord(c, redundancies[i], slices, isKeyframe, i)
      case None => SliceRun([], false)
      case Some(w) =>
        var rest := EncodeSlices(c, redundancies, slices, isKeyframe, i + 1);
        SliceRun([w] + rest.words, rest.complete)
  }

  /** The largest count of slices that is neither more than asked for nor more than 15 nor more than bytes. */
  function EffectiveSlices(frameLen: nat, sliceCount: byte): (n: nat)
    ensures n <= sliceCount && n <= 15 && n <= frameLen
    ensures n == sliceCount || n == 15 || n == frameLen
  {
    Min(Min(sliceCount, MAX_SLICE_COUNT), Min(frameLen, 255))
  }

  function Min(a: nat, b: nat): nat {
    if a < b then a else b
  }

  /** What slicing a frame encodes; nothing usable with too few encoders. */
  function SlicedRun(c: Codec, redundancies: seq<real>, frame: seq<byte>, isKeyframe: bool, sliceCount: byte): SliceRun {
    var n := EffectiveSlices(|frame|, sliceCount);
    if n == 0 || |redundancies| < n then SliceRun([], false)
    else EncodeSlices(c, redundancies, SliceSplitter.Slices(frame, n), isKeyframe, 0)
  }

  // ---- the encode functions ----

  method EncodeFrameWithoutFec(frame: seq<byte>, frameIndex: u32, timestamp: u32, isKeyframe: bool,
                               packetizer: RtpPacketizer)
    returns (packets: seq<seq<byte>>)
    modifies packetizer
    ensures
      packets == WordBatch(PlainWord(frame, isKeyframe), frameIndex, timestamp, old(packetizer.sequence))
    ensures packetizer.sequence == Advance(old(packetizer.sequence), |packets|)
  {
    DataShards(frame);
    var shards := ToDataShards(frame);
    packets := ShardsToPackets(shards, |shards|, frameIndex, timestamp, EncodeSimpleFlags(isKeyframe), packetizer);
  }

  method EncodeFrameToPacketsWithFec(frame: seq<byte>, frameIndex: u32, timestamp: u32, isKeyframe: bool,
                                     fec: FecEncoder, packetizer: RtpPacketizer)
    returns (packets: seq<seq<byte>>)
    requires fec.Valid()
    modifies fec`cachedRs, fec`cachedDataCount, fec`cachedParityCount, packetizer
    ensures fec.Valid()
    ensures
      var w := BulkWord(fec.codec, fec.redundancy, frame, isKeyframe);
      packets == if frame == [] then []
                 else WordBatch(w, frameIndex, timestamp, old(packetizer.sequence))
    ensures packetizer.sequence == Advance(old(packetizer.sequence), |packets|)
  {
    var dataShards := ToDataShards(frame);
    if dataShards == [] {
      return [];
    }
    var dataCount := |dataShards|;
    var encoded := fec.Encode(dataShards);
    if encoded.Err? {
      packets := EncodeFrameWithoutFec(frame, frameIndex, timestamp, isKeyframe, packetizer);
      return;
    }
    packets := ShardsToPackets(encoded.value, dataCount, frameIndex, timestamp, EncodeSimpleFlags(isKeyframe), packetizer);
  }

  ghost predicate Encoders(encoders: seq<FecEncoder>, codec: Codec, redundancies: seq<real>)
    reads encoders
  {
    && |redundancies| == |encoders|
    && forall i | 0 <= i < |encoders| ::
      encoders[i].Valid() && encoders[i].codec == codec && encoders[i].redundancy == redundancies[i]
  }

  lemma NumberedSnoc(words: seq<CodeWord>, w: CodeWord, frameIndex: u32, timestamp: u32, first: u16)
    ensures NumberedBatches(words + [w], frameIndex, timestamp, first) ==
            NumberedBatches(words, frameIndex, timestamp, first)
            + [WordBatch(w, frameIndex, timestamp, NextSequence(words, first))]
    ensures NextSequence(words + [w], first) == Advance(NextSequence(words, first), BatchSize(w))
  {
    assert (words + [w])[..|words|] == words;
    AdvanceTwice(first, TotalShards(words), BatchSize(w));
  }

  lemma EncodedWordShape(c: Codec, redundancy: real, shards: seq<Shard>)
    requires ParityShaped(c) && Uniform(shards, FEC_SHARD_SIZE) && EncodeWord(c, redundancy, shards).Ok?
    ensures
      var all := EncodeWord(c, redundancy, shards).value;
      && 0 < |shards| < |all| <= RS_MAX_TOTAL_SHARDS
      && |all| == |shards| + ParityFor(|shards|, redundancy)
      && Uniform(all, FEC_SHARD_SIZE)
  {
    var p := ParityFor(|shards|, redundancy);
    assert |c.parity(shards, p)| == p && Uniform(c.parity(shards, p), FEC_SHARD_SIZE);
  }

  /** Encode slice `i` and wrap its shards; `word` is its code word, if it can be encoded. */
  method EncodeSlice(slices: seq<seq<byte>>, i: nat, frameIndex: u32, timestamp: u32, isKeyframe: bool,
                     fec: FecEncoder, packetizer: RtpPacketizer, ghost word: Option<CodeWord>)
    returns (packets: Option<seq<seq<byte>>>)
    requires i < |slices| <= MAX_SLICE_COUNT
    requires fec.Valid() && ParityShaped(fec.codec)
    requires word == SliceWord(fec.codec, fec.redundancy, slices, isKeyframe, i)
    modifies fec`cachedRs, fec`cachedDataCount, fec`cachedParityCount, packetizer
    ensures fec.Valid()
    ensures packets.Some? <==> word.Some?
    ensures packets.None? ==>
      packetizer.sequence == old(packetizer.sequence) && packetizer.bufPool == old(packetizer.bufPool)
    ensures packets.Some? ==>
      && packets.value == WordBatch(word.value, frameIndex, timestamp, old(packetizer.sequence))
      && packetizer.sequence == Advance(old(packetizer.sequence), BatchSize(word.value))
      && packetizer.bufPool == LeftInPool(old(packetizer.bufPool), BatchSize(word.value))
  {
    var prefixed := Prefixed(slices[i]);
    var dataShards := ToDataShards(prefixed);
    var dataCount := |dataShards|;
    var encoded := fec.Encode(dataShards);
    if encoded.Err? {
      return None;
    }
    DataShards(prefixed);
    EncodedWordShape(fec.codec, fec.redundancy, dataShards);
    var flags := EncodeFlags(isKeyframe, i, |slices|, 0);
    var batch := ShardsToPackets(encoded.value, dataCount, frameIndex, timestamp, flags, packetizer);
    return Some(batch);
  }

  /** `words` are the code words of the first slices. */
  ghost predicate FirstWords(c: Codec, redundancies: seq<real>, slices: seq<seq<byte>>, isKeyframe: bool,
                             words: seq<CodeWord>)
    requires |slices| <= |redundancies| && |slices| <= MAX_SLICE_COUNT
  {
    && |words| <= |slices|
    && forall k | 0 <= k < |words| :: SliceWord(c, redundancies[k], slices, isKeyframe, k) == Some(words[k])
  }

  lemma FirstWordsSnoc(c: Codec, redundancies: seq<real>, slices: seq<seq<byte>>, isKeyframe: bool,
                       words: seq<CodeWord>, w: CodeWord)
    requires |slices| <= |redundancies| && |slices| <= MAX_SLICE_COUNT && |words| < |slices|
    requires FirstWords(c, redundancies, slices, isKeyframe, words)
    requires SliceWord(c, redundancies[|words|], slices, isKeyframe, |words|) == Some(w)
    ensures FirstWords(c, redundancies, slices, isKeyframe, words + [w])
  {
  }

  lemma LeftSnoc(pool: seq<seq<byte>>, words: seq<CodeWord>, w: CodeWord)
    ensures LeftInPool(LeftInPool(pool, TotalShards(words)), BatchSize(w)) == LeftInPool(pool, TotalShards(words + [w]))
  {
    assert (words + [w])[..|words|] == words;
    LeftTwice(pool, TotalShards(words), BatchSize(w));
  }

  /** What a packetizer has left: its next sequence number and its pool. */
  datatype Left = Left(sequence: u16, pool: seq<seq<byte>>)

  /** `words` were sent as `batches` from a packetizer at `before`, which is then at `after`. */
  ghost predicate SentAs(words: seq<CodeWord>, batches: seq<seq<seq<byte>>>, frameIndex: u32, timestamp: u32,
                         before: Left, after: Left) {
    && batches == NumberedBatches(words, frameIndex, timestamp, before.sequence)
    && after == Left(NextSequence(words, before.sequence), LeftInPool(before.pool, TotalShards(words)))
  }

  lemma NothingSent(frameIndex: u32, timestamp: u32, before: Left)
    ensures SentAs([], [], frameIndex, timestamp, before, before)
  {
    LeftTwice(before.pool, 0, 0);
  }

  lemma SentAsSnoc(words: seq<CodeWord>, batches: seq<seq<seq<byte>>>, frameIndex: u32, timestamp: u32,
                   before: Left, after: Left, w: CodeWord)
    requires SentAs(words, batches, frameIndex, timestamp, before, after)
    ensures SentAs(words + [w], batches + [WordBatch(w, frameIndex, timestamp, after.sequence)], frameIndex, timestamp,
                   before, Left(Advance(after.sequence, BatchSize(w)), LeftInPool(after.pool, BatchSize(w))))
  {
    NumberedSnoc(words, w, frameIndex, timestamp, before.sequence);
    LeftSnoc(before.pool, words, w);
  }

  /** `EncodeSlices` stops at the first slice that cannot be encoded. */
  lemma {:induction false} EncodeSlicesStops(c: Codec, redundancies: seq<real>, slices: seq<seq<byte>>, isKeyframe: bool,
                                             words: seq<CodeWord>, i: nat)
    requires |slices| <= |redundancies| && |slices| <= MAX_SLICE_COUNT && i <= |words|
    requires FirstWords(c, redundancies, slices, isKeyframe, words)
    requires |words| == |slices| || SliceWord(c, redundancies[|words|], slices, isKeyframe, |words|).None?
    ensures EncodeSlices(c, redundancies, slices, isKeyframe, i) == SliceRun(words[i..], |words| == |slices|)
    decreases |words| - i
  {
    if i < |words| {
      EncodeSlicesStops(c, redundancies, slices, isKeyframe, words, i + 1);
      assert words[i..] == [words[i]] + words[i + 1..];
      assert SliceWord(c, redundancies[i], slices, isKeyframe, i) == Some(words[i]);
    }
  }

  method RecycleBatches(batches: seq<seq<seq<byte>>>, packetizer: RtpPacketizer)
    modifies packetizer`bufPool
    ensures packetizer.bufPool == old(packetizer.bufPool) + Flatten(batches)
  {
    for b := 0 to |batches|
      invariant packetizer.bufPool == old(packetizer.bufPool) + Flatten(batches[..b])
    {
      packetizer.Recycle(batches[b]);
      FlattenSnoc(batches[..b], batches[b]);
      assert batches[..b + 1] == batches[..b] + [batches[b]];
    }
    assert batches[..|batches|] == batches;
  }

  /** The pool after sending `words`, or after giving their packets up. */
  function PoolAfter(pool: seq<seq<byte>>, run: SliceRun, frameIndex: u32, timestamp: u32, first: u16): seq<seq<byte>> {
    var rest := LeftInPool(pool, TotalShards(run.words));
    if run.complete then rest else rest + Flatten(NumberedBatches(run.words, frameIndex, timestamp, first))
  }

  /** One slice that cannot be encoded drops the frame, and its packets' buffers go back to the pool. */
  method EncodeFrameSliced(frame: seq<byte>, frameIndex: u32, timestamp: u32, isKeyframe: bool, sliceCount: byte,
                           encoders: seq<FecEncoder>, packetizer: RtpPacketizer,
                           ghost codec: Codec, ghost redundancies: seq<real>)
    returns (batches: seq<seq<seq<byte>>>)
    requires ParityShaped(codec) && Encoders(encoders, codec, redundancies)
    modifies packetizer, encoders
    ensures Encoders(encoders, codec, redundancies)
    ensures
      var run := SlicedRun(codec, redundancies, frame, isKeyframe, sliceCount);
      && batches == (if run.complete
                     then NumberedBatches(run.words, frameIndex, timestamp, old(packetizer.sequence))
                     else [])
      && packetizer.sequence == NextSequence(run.words, old(packetizer.sequence))
      && packetizer.bufPool
         == PoolAfter(old(packetizer.bufPool), run, frameIndex, timestamp, old(packetizer.sequence))
  {
    ghost var pool := packetizer.bufPool;
    LeftTwice(pool, 0, 0);
    var n := EffectiveSlices(|frame|, sliceCount);
    if n == 0 || |encoders| < n {
      return [];
    }
    var slices := SliceSplitter.Split(frame, n);
    ghost var words: seq<CodeWord>;
    batches, words := EncodeAllSlices(slices, frameIndex, timestamp, isKeyframe, encoders, packetizer, codec, redundancies);
    EncodeSlicesStops(codec, redundancies, slices, isKeyframe, words, 0);
    assert words[0..] == words;
    if |batches| < n {
      RecycleBatches(batches, packetizer);
      batches := [];
    }
  }

  /** The loop of `EncodeFrameSliced`: one batch per slice, up to the first failure. */
  method EncodeAllSlices(slices: seq<seq<byte>>, frameIndex: u32, timestamp: u32, isKeyframe: bool,
                         encoders: seq<FecEncoder>, packetizer: RtpPacketizer,
                         ghost codec: Codec, ghost redundancies: seq<real>)
    returns (batches: seq<seq<seq<byte>>>, ghost words: seq<CodeWord>)
    requires ParityShaped(codec) && Encoders(encoders, codec, redundancies)
    requires |slices| <= |encoders| && |slices| <= MAX_SLICE_COUNT
    modifies packetizer, encoders
    ensures Encoders(encoders, codec, redundancies)
    ensures FirstWords(codec, redundancies, slices, isKeyframe, words)
    ensures |words| == |slices| || SliceWord(codec, redundancies[|words|], slices, isKeyframe, |words|).None?
    ensures SentAs(words, batches, frameIndex, timestamp, Left(old(packetizer.sequence), old(packetizer.bufPool)),
                   Left(packetizer.sequence, packetizer.bufPool))
  {
    ghost var before := Left(packetizer.sequence, packetizer.bufPool);
    NothingSent(frameIndex, timestamp, before);
    words := [];
    batches := [];
    for i := 0 to |slices|
      invariant Encoders(encoders, codec, redundancies)
      invariant |words| == i && FirstWords(codec, redundancies, slices, isKeyframe, words)
      invariant SentAs(words, batches, frameIndex, timestamp, before, Left(packetizer.sequence, packetizer.bufPool))
    {
      ghost var sofar := Left(packetizer.sequence, packetizer.bufPool);
      ghost var word := SliceWord(codec, redundancies[i], slices, isKeyframe, i);
      var packets := EncodeSlice(slices, i, frameIndex, timestamp, isKeyframe, encoders[i], packetizer, word);
      if packets.None? {
        return;
      }
      FirstWordsSnoc(codec, redundancies, slices, isKeyframe, words, word.value);
      SentAsSnoc(words, batches, frameIndex, timestamp, before, sofar, word.value);
      batches, words := batches + [packets.value], words + [word.value];
    }
  }

  // ---- the per-session encoder ----

  /** Every slice encoder works at the redundancy of the bulk encoder. */
  function SliceRedundancies(redundancy: real): (s: seq<real>)
    ensures |s| == MAX_SLICE_COUNT && forall i | 0 <= i < |s| :: s[i] == redundancy
  {
    seq(MAX_SLICE_COUNT, _ => redundancy)
  }

  /** The code words of one frame; none when it is not sent. */
  function FrameWords(c: Codec, redundancy: real, sliceFecEnabled: bool, sliceCount: byte, frame: seq<byte>,
                      isKeyframe: bool): seq<CodeWord> {
    match ChooseFecLayout(|frame|, sliceFecEnabled, sliceCount, MaxDataShards(redundancy))
    case Sliced(n) =>
      var run := SlicedRun(c, SliceRedundancies(redundancy), frame, isKeyframe, n);
      if run.complete then run.words else []
    case Bulk => if frame == [] then [] else Sendable(BulkWord(c, redundancy, frame, isKeyframe))
    case Unprotected => if frame == [] then [] else Sendable(PlainWord(frame, isKeyframe))
  }

  function Sendable(w: CodeWord): seq<CodeWord> {
    if |w.shards| > VideoPacket.MAX_FRAME_SHARDS then [] else [w]
  }

  /** No encoder fails on the shards of a frame that `ChooseFecLayout` gave it. */
  lemma EncodersNeverFail(c: Codec, redundancy: real, sliceFecEnabled: bool, sliceCount: byte, frame: seq<byte>,
                          isKeyframe: bool)
    requires 0.0 <= redundancy <= 1.0 && frame != []
    ensures
      match ChooseFecLayout(|frame|, sliceFecEnabled, sliceCount, MaxDataShards(redundancy))
      case Bulk => EncodeWord(c, redundancy, ToDataShards(frame)).Ok?
      case Sliced(n) =>
        && EffectiveSlices(|frame|, n) == n
        && SlicedRun(c, SliceRedundancies(redundancy), frame, isKeyframe, n).complete
      case Unprotected => true
  {
    var max := MaxDataShards(redundancy);
    MaxDataShardsExact(0, redundancy);
    var layout := ChooseFecLayout(|frame|, sliceFecEnabled, sliceCount, max);
    if layout.Bulk? {
      FitsOneWord(c, redundancy, frame);
    } else if layout.Sliced? {
      SlicesNotMoreThanBytes(|frame|, sliceFecEnabled, sliceCount, max);
      SlicedIsLeastFit(frame, sliceFecEnabled, sliceCount, max, layout.count);
      SlicesFit(c, redundancy, frame, isKeyframe, layout.count);
    }
  }

  /** Content of at most `MaxDataShards` shards can be encoded. */
  lemma FitsOneWord(c: Codec, redundancy: real, content: seq<byte>)
    requires 0.0 <= redundancy <= 1.0 && content != []
    requires DivCeil(|content|, FEC_SHARD_SIZE) <= MaxDataShards(redundancy)
    ensures EncodeWord(c, redundancy, ToDataShards(content)).Ok?
  {
    DataShards(content);
    MaxDataShardsExact(|ToDataShards(content)|, redundancy);
  }

  lemma SlicesFit(c: Codec, redundancy: real, frame: seq<byte>, isKeyframe: bool, n: nat)
    requires 0.0 <= redundancy <= 1.0 && 0 < n <= MAX_SLICE_COUNT
    requires forall i | 0 <= i < n :: SliceDataShards(|SliceSplitter.Slices(frame, n)[i]|) <= MaxDataShards(redundancy)
    ensures EncodeSlices(c, SliceRedundancies(redundancy), SliceSplitter.Slices(frame, n), isKeyframe, 0).complete
  {
    var slices := SliceSplitter.Slices(frame, n);
    forall i | 0 <= i < n
      ensures SliceWord(c, redundancy, slices, isKeyframe, i).Some?
    {
      assert |Prefixed(slices[i])| == |slices[i]| + FecLayout.SLICE_LEN_PREFIX;
      FitsOneWord(c, redundancy, Prefixed(slices[i]));
    }
    EncodeSlicesComplete(c, redundancy, slices, isKeyframe, 0);
  }

  /** The layout never asks for more slices than the frame has bytes. */
  lemma SlicesNotMoreThanBytes(frameLen: nat, enabled: bool, sliceCount: nat, max: nat)
    requires frameLen > 0 && max >= 1 && ChooseFecLayout(frameLen, enabled, sliceCount, max).Sliced?
    ensures ChooseFecLayout(frameLen, enabled, sliceCount, max).count <= frameLen
  {
    LayoutClosedForm(frameLen, enabled, sliceCount, max);
    DivCeilLeast(frameLen, SliceCapacity(max), frameLen);
    MulMonotone(1, SliceCapacity(max), frameLen);
  }

  lemma {:induction false} EncodeSlicesComplete(c: Codec, redundancy: real, slices: seq<seq<byte>>, isKeyframe: bool, i: nat)
    requires i <= |slices| <= MAX_SLICE_COUNT
    requires forall k | i <= k < |slices| :: SliceWord(c, redundancy, slices, isKeyframe, k).Some?
    ensures EncodeSlices(c, SliceRedundancies(redundancy), slices, isKeyframe, i).complete
    decreases |slices| - i
  {
    if i < |slices| {
      EncodeSlicesComplete(c, redundancy, slices, isKeyframe, i + 1);
    }
  }

  lemma SingleBatch(w: CodeWord, frameIndex: u32, timestamp: u32, first: u16)
    requires w.shards != []
    ensures
      var batch := WordBatch(w, frameIndex, timestamp, first);
      && NumberedBatches(Sendable(w), frameIndex, timestamp, first) == (if batch == [] then [] else [batch])
      && NextSequence(Sendable(w), first) == Advance(first, |batch|)
  {
    assert [] + [w] == [w];
    NumberedSnoc([], w, frameIndex, timestamp, first);
    AdvanceTwice(first, 0, 0);
  }

  /** A frame that is not sliced is one code word, sent unless receivers would reject it. */
  lemma UnslicedFrame(c: Codec, redundancy: real, sliceFecEnabled: bool, sliceCount: byte, frame: seq<byte>,
                      isKeyframe: bool, frameIndex: u32, timestamp: u32, first: u16)
    requires frame != []
    requires !ChooseFecLayout(|frame|, sliceFecEnabled, sliceCount, MaxDataShards(redundancy)).Sliced?
    ensures
      var words := FrameWords(c, redundancy, sliceFecEnabled, sliceCount, frame, isKeyframe);
      var layout := ChooseFecLayout(|frame|, sliceFecEnabled, sliceCount, MaxDataShards(redundancy));
      var w := if layout.Bulk? then BulkWord(c, redundancy, frame, isKeyframe) else PlainWord(frame, isKeyframe);
      var batch := WordBatch(w, frameIndex, timestamp, first);
      && NumberedBatches(words, frameIndex, timestamp, first) == (if batch == [] then [] else [batch])
      && NextSequence(words, first) == Advance(first, |batch|)
  {
    DataShards(frame);
    var layout := ChooseFecLayout(|frame|, sliceFecEnabled, sliceCount, MaxDataShards(redundancy));
    var w := if layout.Bulk? then BulkWord(c, redundancy, frame, isKeyframe) else PlainWord(frame, isKeyframe);
    SingleBatch(w, frameIndex, timestamp, first);
  }

  lemma SlicedFrame(c: Codec, redundancy: real, sliceFecEnabled: bool, sliceCount: byte, frame: seq<byte>,
                    isKeyframe: bool)
    requires 0.0 <= redundancy <= 1.0
    requires ChooseFecLayout(|frame|, sliceFecEnabled, sliceCount, MaxDataShards(redundancy)).Sliced?
    ensures
      var n := ChooseFecLayout(|frame|, sliceFecEnabled, sliceCount, MaxDataShards(redundancy)).count;
      SlicedRun(c, SliceRedundancies(redundancy), frame, isKeyframe, n)
      == SliceRun(FrameWords(c, redundancy, sliceFecEnabled, sliceCount, frame, isKeyframe), true)
  {
    EncodersNeverFail(c, redundancy, sliceFecEnabled, sliceCount, frame, isKeyframe);
  }

  /** A frame as one batch, protected or not; no batch for a frame without packets. */
  method EncodeWhole(protect: bool, frame: seq<byte>, frameIndex: u32, timestamp: u32, isKeyframe: bool,
                     fec: FecEncoder, packetizer: RtpPacketizer)
    returns (batches: seq<seq<seq<byte>>>)
    requires fec.Valid()
    modifies fec`cachedRs, fec`cachedDataCount, fec`cachedParityCount, packetizer
    ensures fec.Valid()
    ensures
      var w := if protect then BulkWord(fec.codec, fec.redundancy, frame, isKeyframe) else PlainWord(frame, isKeyframe);
      var batch := if frame == [] then [] else WordBatch(w, frameIndex, timestamp, old(packetizer.sequence));
      && batches == (if batch == [] then [] else [batch])
      && packetizer.sequence == Advance(old(packetizer.sequence), |batch|)
  {
    var packets: seq<seq<byte>>;
    if protect {
      packets := EncodeFrameToPacketsWithFec(frame, frameIndex, timestamp, isKeyframe, fec, packetizer);
    } else {
      packets := EncodeFrameWithoutFec(frame, frameIndex, timestamp, isKeyframe, packetizer);
    }
    batches := if packets == [] then [] else [packets];
  }

  /** The layouts that are not sliced, against the frame's code words. */
  method EncodeUnsliced(protect: bool, frame: seq<byte>, frameIndex: u32, timestamp: u32, isKeyframe: bool,
                        fec: FecEncoder, packetizer: RtpPacketizer,
                        ghost sliceFecEnabled: bool, ghost sliceCount: byte, ghost words: seq<CodeWord>)
    returns (batches: seq<seq<seq<byte>>>)
    requires fec.Valid()
    requires words == FrameWords(fec.codec, fec.redundancy, sliceFecEnabled, sliceCount, frame, isKeyframe)
    requires
      var layout := ChooseFecLayout(|frame|, sliceFecEnabled, sliceCount, MaxDataShards(fec.redundancy));
      !layout.Sliced? && layout.Bulk? == protect
    modifies fec`cachedRs, fec`cachedDataCount, fec`cachedParityCount, packetizer
    ensures fec.Valid()
    ensures batches == NumberedBatches(words, frameIndex, timestamp, old(packetizer.sequence))
    ensures packetizer.sequence == NextSequence(words, old(packetizer.sequence))
  {
    if frame != [] {
      UnslicedFrame(fec.codec, fec.redundancy, sliceFecEnabled, sliceCount, frame, isKeyframe, frameIndex, timestamp,
                    packetizer.sequence);
    }
    batches := EncodeWhole(protect, frame, frameIndex, timestamp, isKeyframe, fec, packetizer);
  }

  /** The encoders of a session and its slicing settings. */
  class FrameFecEncoder {
    const codec: Codec
    var bulk: FecEncoder
    var slices: seq<FecEncoder>
    const sliceFecEnabled: bool
    const sliceCount: byte
    var unprotectedFrames: nat

    /** Every encoder works at the same redundancy. */
    ghost predicate Valid()
      reads this, bulk, slices
    {
      && bulk.Valid() && bulk.codec == codec
      && |slices| == MAX_SLICE_COUNT
      && Encoders(slices, codec, SliceRedundancies(bulk.redundancy))
      && bulk !in slices
      && (forall i, j | 0 <= i < j < |slices| :: slices[i] != slices[j])
    }

    constructor (codec: Codec, redundancy: real, sliceFecEnabled: bool, sliceCount: byte)
      ensures Valid() && fresh(bulk) && fresh(slices)
      ensures this.codec == codec && this.sliceFecEnabled == sliceFecEnabled && this.sliceCount == sliceCount
      ensures bulk.redundancy == Clamp01(redundancy) && unprotectedFrames == 0
    {
      this.codec := codec;
      this.sliceFecEnabled := sliceFecEnabled;
      this.sliceCount := sliceCount;
      unprotectedFrames := 0;
      var b := new FecEncoder(codec, redundancy);
      bulk := b;
      var encoders: seq<FecEncoder> := [];
      for i := 0 to MAX_SLICE_COUNT
        invariant |encoders| == i && fresh(encoders) && b !in encoders
        invariant b.Valid() && b.codec == codec && b.redundancy == Clamp01(redundancy)
        invariant forall k | 0 <= k < i ::
          encoders[k].Valid() && encoders[k].codec == codec && encoders[k].redundancy == Clamp01(redundancy)
        invariant forall k, m | 0 <= k < m < i :: encoders[k] != encoders[m]
      {
        var e := new FecEncoder(codec, redundancy);
        encoders := encoders + [e];
      }
      slices := encoders;
    }

    /** All encoders go to the same new redundancy. */
    method SetRedundancy(requested: real)
      requires Valid()
      modifies bulk, slices
      ensures Valid() && bulk == old(bulk) && slices == old(slices)
      ensures bulk.redundancy == AfterSetRedundancy(old(bulk.redundancy), requested)
    {
      ghost var was := bulk.redundancy;
      assert forall k | 0 <= k < |slices| :: slices[k].Valid() && slices[k].redundancy == was;
      bulk.SetRedundancy(requested);
      for i := 0 to |slices|
        invariant bulk.Valid() && bulk.redundancy == AfterSetRedundancy(was, requested)
        invariant forall k | 0 <= k < i :: slices[k].Valid() && slices[k].redundancy == bulk.redundancy
        invariant forall k | i <= k < |slices| :: slices[k].Valid() && slices[k].redundancy == was
      {
        slices[i].SetRedundancy(requested);
      }
    }

    /**
     * Encode one frame: one batch of packets per code word of `FrameWords`,
     * numbered on from the packetizer's sequence number.
     */
    method Encode(frame: seq<byte>, frameIndex: u32, timestamp: u32, isKeyframe: bool, packetizer: RtpPacketizer)
      returns (batches: seq<seq<seq<byte>>>)
      requires Valid() && ParityShaped(codec)
      modifies this`unprotectedFrames, bulk, slices, packetizer
      ensures Valid() && bulk == old(bulk) && slices == old(slices) && bulk.redundancy == old(bulk.redundancy)
      ensures
        var words := FrameWords(codec, old(bulk.redundancy), sliceFecEnabled, sliceCount, frame, isKeyframe);
        && batches == NumberedBatches(words, frameIndex, timestamp, old(packetizer.sequence))
        && packetizer.sequence == NextSequence(words, old(packetizer.sequence))
    {
      var layout := ChooseFecLayout(|frame|, sliceFecEnabled, sliceCount, MaxDataShards(bulk.redundancy));
      ghost var redundancy := bulk.redundancy;
      ghost var words := FrameWords(codec, redundancy, sliceFecEnabled, sliceCount, frame, isKeyframe);
      if layout.Sliced? {
        SlicedFrame(codec, redundancy, sliceFecEnabled, sliceCount, frame, isKeyframe);
        batches := EncodeFrameSliced(frame, frameIndex, timestamp, isKeyframe, layout.count, slices, packetizer,
                                     codec, SliceRedundancies(redundancy));
      } else {
        if layout.Unprotected? {
          unprotectedFrames := unprotectedFrames + 1;
        }
        batches := EncodeUnsliced(layout.Bulk?, frame, frameIndex, timestamp, isKeyframe, bulk, packetizer,
                                  sliceFecEnabled, sliceCount, words);
      }
    }
  }
}
