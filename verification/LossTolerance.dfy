/** How much loss a sent frame survives, read off its packets. */
module LossTolerance {
  import opened Bytes
  import opened ErasureCode
  import opened FecEncoding
  import opened FecLayout
  import opened VideoPacket
  import opened FrameSender
  import opened FrameReassembly
  import opened VideoDelivery
  import opened FrameDelivery

  // ---- what the packets say ----

  /** `d` shards of 1200 bytes are as many as `len` bytes fill. */
  predicate Fills(d: nat, len: nat) {
    1200 * d >= len && 1200 * d < len + 1200
  }

  /** The least number of parity shards that is at least one and at least the share asked for. */
  predicate LeastParity(parity: int, share: real) {
    && parity >= 1 && parity as real >= share
    && (parity == 1 || (parity - 1) as real < share)
  }

  predicate ParityCount(d: nat, parity: int, redundancy: real) {
    LeastParity(parity, d as real * redundancy)
  }

  /** The bytes code word `w` carries: the whole frame, or a slice of it behind its length. */
  function Carried(layout: Layout, frame: seq<byte>, w: nat): seq<byte>
    requires layout.Sliced? ==> w < layout.count
  {
    if layout.Sliced? then
      var slice := SliceSplitter.Slices(frame, layout.count)[w];
      Le32(|slice| % 0x1_0000_0000) + slice
    else frame
  }

  /** Packet `i` of a batch announces `all` shards, `d` of them data. */
  predicate Announces(packet: seq<byte>, all: nat, d: nat) {
    && ReadFvpHeader(packet).Some?
    && ReadFvpHeader(packet).value.shardCount == all
    && ReadFvpHeader(packet).value.dataShardCount == d
  }

  /** Data shards of a batch, as its first header has it. */
  function DataCount(batch: seq<seq<byte>>): nat {
    if batch != [] && ReadFvpHeader(batch[0]).Some? then ReadFvpHeader(batch[0]).value.dataShardCount else 0
  }

  // ---- what a code word holds ----

  /** `word` is `content` in data shards, followed by parity unless `plain`. */
  predicate HoldsContent(word: CodeWord, redundancy: real, content: seq<byte>, plain: bool) {
    && word.dataCount == |ToDataShards(content)| <= |word.shards|
    && Fills(word.dataCount, |content|)
    && word.shards[..word.dataCount] == ToDataShards(content)
    && if plain then |word.shards| == word.dataCount
       else ParityCount(word.dataCount, |word.shards| - word.dataCount, redundancy)
  }

  lemma EncodedHolds(c: Codec, redundancy: real, content: seq<byte>, word: CodeWord, plain: bool)
    requires ParityShaped(c) && Codes(c, redundancy, word, content, plain)
    ensures HoldsContent(word, redundancy, content, plain)
  {
    var data := ToDataShards(content);
    DataShards(content);
    DivCeilBounds(|content|, FEC_SHARD_SIZE);
    if plain {
      assert word.shards[..word.dataCount] == data;
    } else {
      EncodedWordShape(c, redundancy, data);
      ParityIsLeast(|data|, redundancy, ParityFor(|data|, redundancy));
      ParityIsLeast(|data|, redundancy, ParityFor(|data|, redundancy) - 1);
    }
  }

  lemma SliceHolds(c: Codec, t: Transmission, w: nat)
    requires ParityShaped(c) && 0.0 <= t.redundancy <= 1.0 && t.frame != []
    requires t.FrameLayout().Sliced? && w < t.FrameLayout().count
    ensures w < |t.Words(c)| == t.FrameLayout().count
    ensures HoldsContent(t.Words(c)[w], t.redundancy, Carried(t.FrameLayout(), t.frame, w), false)
  {
    SlicedWords(c, t.redundancy, t.sliceFecEnabled, t.sliceCount, t.frame, t.isKeyframe, w);
    var content := Carried(t.FrameLayout(), t.frame, w);
    DataShards(content);
    assert content == Prefixed(SliceSplitter.Slices(t.frame, t.FrameLayout().count)[w]);
    EncodedHolds(c, t.redundancy, content, t.Words(c)[w], false);
  }

  lemma WholeHolds(c: Codec, t: Transmission)
    requires ParityShaped(c) && 0.0 <= t.redundancy <= 1.0 && t.Words(c) != []
    requires !t.FrameLayout().Sliced? && t.frame != []
    ensures |t.Words(c)| == 1
    ensures HoldsContent(t.Words(c)[0], t.redundancy, t.frame, t.FrameLayout().Unprotected?)
  {
    EncodersNeverFail(c, t.redundancy, t.sliceFecEnabled, t.sliceCount, t.frame, t.isKeyframe);
    DataShards(t.frame);
    EncodedHolds(c, t.redundancy, t.frame, t.Words(c)[0], t.FrameLayout().Unprotected?);
  }

  /** Every code word of a frame holds its part of the frame, with parity unless the frame goes unprotected. */
  lemma WordsHold(c: Codec, t: Transmission, w: nat)
    requires ParityShaped(c) && 0.0 <= t.redundancy <= 1.0 && w < |t.Words(c)|
    ensures t.FrameLayout().Sliced? ==> w < t.FrameLayout().count
    ensures HoldsContent(t.Words(c)[w], t.redundancy, Carried(t.FrameLayout(), t.frame, w),
                         t.FrameLayout().Unprotected?)
  {
    NothingSentExactly(c, t.redundancy, t.sliceFecEnabled, t.sliceCount, t.frame, t.isKeyframe);
    if t.FrameLayout().Sliced? {
      SliceHolds(c, t, 0);
      SliceHolds(c, t, w);
    } else {
      WholeHolds(c, t);
    }
  }

  // ---- the packets of a frame ----

  lemma WordAnnounces(word: CodeWord, frameIndex: u32, timestamp: u32, start: u16, i: nat)
    requires i < |word.shards| <= VideoPacket.MAX_FRAME_SHARDS && 0 < word.dataCount <= |word.shards|
    ensures
      var batch := WordBatch(word, frameIndex, timestamp, start);
      && |batch| == |word.shards| && |batch[i]| == 24 + |word.shards[i]|
      && Announces(batch[i], |batch|, word.dataCount)
      && batch[i][24..] == word.shards[i]
  {
    assert word.dataCount % 0x1_0000 == word.dataCount;
    BatchPacket(word.shards, word.dataCount, frameIndex, timestamp, word.flags, start, i);
  }

  /** Packet `i` of code word `w` announces the word's counts and carries its shard. */
  lemma PacketAnnounces(words: seq<CodeWord>, frameIndex: u32, timestamp: u32, first: u16, w: nat, i: nat)
    requires w < |words| && i < |words[w].shards| <= VideoPacket.MAX_FRAME_SHARDS
    requires 0 < words[w].dataCount <= |words[w].shards|
    ensures
      var batch := NumberedBatches(words, frameIndex, timestamp, first)[w];
      && |batch| == |words[w].shards| && |batch[i]| == 24 + |words[w].shards[i]|
      && Announces(batch[i], |batch|, words[w].dataCount)
      && batch[i][24..] == words[w].shards[i]
  {
    NumberedAt(words, frameIndex, timestamp, first, w);
    WordAnnounces(words[w], frameIndex, timestamp, NextSequence(words[..w], first), i);
  }

  /** All packets of code word `w` announce its counts. */
  lemma BatchAnnounces(words: seq<CodeWord>, frameIndex: u32, timestamp: u32, first: u16, w: nat)
    requires w < |words| && 0 < words[w].dataCount <= |words[w].shards| <= VideoPacket.MAX_FRAME_SHARDS
    ensures
      var batch := NumberedBatches(words, frameIndex, timestamp, first)[w];
      && |batch| == |words[w].shards| && DataCount(batch) == words[w].dataCount
      && forall i | 0 <= i < |batch| :: Announces(batch[i], |batch|, words[w].dataCount)
  {
    var batch := NumberedBatches(words, frameIndex, timestamp, first)[w];
    PacketAnnounces(words, frameIndex, timestamp, first, w, 0);
    forall i | 0 <= i < |batch|
      ensures Announces(batch[i], |batch|, words[w].dataCount)
    {
      PacketAnnounces(words, frameIndex, timestamp, first, w, i);
    }
  }

  /**
   * Every packet of a code word announces the same counts: as many data shards as the word's bytes fill, and
   * on top of them, unless the frame goes unprotected, max(1, ceil(data * redundancy)) parity shards.
   */
  lemma ParityOnTheWire(c: Codec, t: Transmission, w: nat)
    requires CodecRecovers(c, t.redundancy) && 0.0 <= t.redundancy <= 1.0 && w < |t.Batches(c)|
    ensures t.FrameLayout().Sliced? ==> w < t.FrameLayout().count
    ensures
      var batch := t.Batches(c)[w];
      var d := DataCount(batch);
      && 0 < d <= |batch| && Fills(d, |Carried(t.FrameLayout(), t.frame, w)|)
      && (if t.FrameLayout().Unprotected? then |batch| == d else ParityCount(d, |batch| - d, t.redundancy))
      && forall i | 0 <= i < |batch| :: Announces(batch[i], |batch|, d)
  {
    WordsHold(c, t, w);
    WordsAcceptable(c, t);
    BatchAnnounces(t.Words(c), t.frameIndex, t.timestamp, t.firstSequence, w);
  }

  lemma {:induction false} ShardAt(data: seq<byte>, i: nat)
    requires i < |ToDataShards(data)|
    ensures 1200 * i + 1200 <= |data| + Padding(|data|)
    ensures ToDataShards(data)[i] == (data + Zeros(Padding(|data|)))[1200 * i..1200 * i + 1200]
  {
    var padded := data + Zeros(Padding(|data|));
    if |data| > FEC_SHARD_SIZE {
      var rest := data[FEC_SHARD_SIZE..];
      var tail := rest + Zeros(Padding(|rest|));
      assert padded[FEC_SHARD_SIZE..] == tail;
      if i > 0 {
        ShardAt(rest, i - 1);
        assert tail[1200 * (i - 1)..1200 * (i - 1) + 1200] == padded[1200 * i..1200 * i + 1200];
      } else {
        assert padded[..1200] == data[..1200];
      }
    }
  }

  /** Shard `i` has the bytes from 1200 * i on, filled up with zeros. */
  lemma PaddedShard(data: seq<byte>, i: nat)
    requires i < |ToDataShards(data)|
    ensures 1200 * i < |data|
    ensures
      var end := if 1200 * i + 1200 <= |data| then 1200 * i + 1200 else |data|;
      ToDataShards(data)[i] == data[1200 * i..end] + Zeros(1200 * i + 1200 - end)
  {
    DataShards(data);
    DivCeilBounds(|data|, FEC_SHARD_SIZE);
    ShardAt(data, i);
  }

  /** The first packets of a code word carry its bytes in order, the last one filled up with zeros. */
  lemma DataOnTheWire(c: Codec, t: Transmission, w: nat, i: nat)
    requires CodecRecovers(c, t.redundancy) && 0.0 <= t.redundancy <= 1.0
    requires w < |t.Batches(c)| && i < DataCount(t.Batches(c)[w])
    ensures t.FrameLayout().Sliced? ==> w < t.FrameLayout().count
    ensures
      var batch := t.Batches(c)[w];
      var carried := Carried(t.FrameLayout(), t.frame, w);
      && i < |batch| && |batch[i]| == 1224 && 1200 * i < |carried|
      && var end := if 1200 * i + 1200 <= |carried| then 1200 * i + 1200 else |carried|;
         batch[i][24..] == carried[1200 * i..end] + Zeros(1200 * i + 1200 - end)
  {
    var word := t.Words(c)[w];
    assert 0 < word.dataCount <= |word.shards| <= VideoPacket.MAX_FRAME_SHARDS
           && Uniform(word.shards, FEC_SHARD_SIZE) by {
      WordsAcceptable(c, t);
    }
    WordsHold(c, t, w);
    assert DataCount(t.Batches(c)[w]) == word.dataCount by {
      BatchAnnounces(t.Words(c), t.frameIndex, t.timestamp, t.firstSequence, w);
    }
    assert word.shards[i] == word.shards[..word.dataCount][i];
    PacketAnnounces(t.Words(c), t.frameIndex, t.timestamp, t.firstSequence, w, i);
    PaddedShard(Carried(t.FrameLayout(), t.frame, w), i);
  }

  /** Keyframe in bit 0, slice in bits 1 to 4, slice count in bits 5 to 8; a frame that is not sliced has neither. */
  function FlagBits(isKeyframe: bool, layout: Layout, w: nat): int {
    (if isKeyframe then 1 else 0) + if layout.Sliced? then 2 * w + 32 * layout.count else 0
  }

  lemma SliceFlags(c: Codec, redundancy: real, slices: seq<seq<byte>>, isKeyframe: bool, w: nat)
    requires w < |slices| <= MAX_SLICE_COUNT && SliceWord(c, redundancy, slices, isKeyframe, w).Some?
    ensures SliceWord(c, redundancy, slices, isKeyframe, w).value.flags ==
            (if isKeyframe then 1 else 0) + 2 * w + 32 * |slices|
  {
  }

  lemma WholeFlags(c: Codec, t: Transmission)
    requires !t.FrameLayout().Sliced? && t.Words(c) != []
    ensures |t.Words(c)| == 1 && t.Words(c)[0].flags == if t.isKeyframe then 1 else 0
  {
  }

  lemma WordFlags(c: Codec, t: Transmission, w: nat)
    requires ParityShaped(c) && 0.0 <= t.redundancy <= 1.0 && w < |t.Words(c)|
    ensures t.Words(c)[w].flags == FlagBits(t.isKeyframe, t.FrameLayout(), w)
  {
    if t.FrameLayout().Sliced? {
      WordsHold(c, t, w);
      NothingSentExactly(c, t.redundancy, t.sliceFecEnabled, t.sliceCount, t.frame, t.isKeyframe);
      SlicedWords(c, t.redundancy, t.sliceFecEnabled, t.sliceCount, t.frame, t.isKeyframe, w);
      SliceFlags(c, t.redundancy, SliceSplitter.Slices(t.frame, t.FrameLayout().count), t.isKeyframe, w);
    } else {
      WholeFlags(c, t);
    }
  }

  /** Every packet of code word `w` carries the frame's flags. */
  lemma FlagsOnTheWire(c: Codec, t: Transmission, w: nat, i: nat)
    requires CodecRecovers(c, t.redundancy) && 0.0 <= t.redundancy <= 1.0
    requires w < |t.Batches(c)| && i < |t.Batches(c)[w]|
    ensures
      var h := ReadFvpHeader(t.Batches(c)[w][i]);
      h.Some? && h.value.flags == FlagBits(t.isKeyframe, t.FrameLayout(), w)
  {
    var word := t.Words(c)[w];
    assert 0 < word.dataCount <= |word.shards| <= VideoPacket.MAX_FRAME_SHARDS by {
      WordsAcceptable(c, t);
    }
    WordFlags(c, t, w);
    NumberedAt(t.Words(c), t.frameIndex, t.timestamp, t.firstSequence, w);
    WordFlagged(word, t.frameIndex, t.timestamp, NextSequence(t.Words(c)[..w], t.firstSequence), i);
  }

  lemma WordFlagged(word: CodeWord, frameIndex: u32, timestamp: u32, start: u16, i: nat)
    requires i < |word.shards| <= VideoPacket.MAX_FRAME_SHARDS && 0 < word.dataCount <= |word.shards|
    ensures
      var h := ReadFvpHeader(WordBatch(word, frameIndex, timestamp, start)[i]);
      h.Some? && h.value.flags == word.flags
  {
    assert word.dataCount % 0x1_0000 == word.dataCount;
    BatchPacket(word.shards, word.dataCount, frameIndex, timestamp, word.flags, start, i);
  }

  // ---- what may be lost ----

  /** A number of shards that is at most max(1, ceil(share)). */
  predicate AtMostOneOr(missing: int, share: real) {
    missing <= 1 || (missing - 1) as real < share
  }

  /** At most max(1, ceil(data * redundancy)) of a batch's shards did not arrive. */
  predicate FewMissing(batch: seq<seq<byte>>, got: set<nat>, redundancy: real) {
    AtMostOneOr(|batch| - |got|, DataCount(batch) as real * redundancy)
  }

  predicate FewMissingEverywhere(c: Codec, t: Transmission) {
    forall w | 0 <= w < |t.Batches(c)| :: FewMissing(t.Batches(c)[w], Got(t.arrivals, w), t.redundancy)
  }

  /** The frame, if it was sliced, and otherwise filled up with zeros to whole shards. */
  predicate IsTheFrame(data: seq<byte>, frame: seq<byte>, sliced: bool) {
    if sliced then data == frame
    else
      && frame <= data && |data| < |frame| + 1200 && |data| % 1200 == 0
      && forall k | |frame| <= k < |data| :: data[k] == 0
  }

  lemma AtMostParity(missing: int, parity: int, share: real)
    requires LeastParity(parity, share)
    ensures AtMostOneOr(missing, share) <==> missing <= parity
  {
  }

  /** With d data and p parity shards, at most p missing leaves at least d. */
  lemma FewLeavesEnough(batch: seq<seq<byte>>, got: set<nat>, redundancy: real)
    requires ParityCount(DataCount(batch), |batch| - DataCount(batch), redundancy)
    ensures FewMissing(batch, got, redundancy) <==> |got| >= DataCount(batch)
  {
    var d := DataCount(batch);
    AtMostParity(|batch| - |got|, |batch| - d, d as real * redundancy);
  }

  lemma EnoughExactly(c: Codec, t: Transmission, w: nat)
    requires CodecRecovers(c, t.redundancy) && 0.0 <= t.redundancy <= 1.0 && !t.FrameLayout().Unprotected?
    requires w < |t.Words(c)|
    ensures FewMissing(t.Batches(c)[w], Got(t.arrivals, w), t.redundancy) <==>
            |Got(t.arrivals, w)| >= t.Words(c)[w].dataCount
  {
    var words, batch := t.Words(c), t.Batches(c)[w];
    assert 0 < words[w].dataCount <= |words[w].shards| <= VideoPacket.MAX_FRAME_SHARDS by {
      WordsAcceptable(c, t);
    }
    assert ParityCount(words[w].dataCount, |words[w].shards| - words[w].dataCount, t.redundancy) by {
      WordsHold(c, t, w);
    }
    assert |batch| == |words[w].shards| && DataCount(batch) == words[w].dataCount by {
      BatchAnnounces(words, t.frameIndex, t.timestamp, t.firstSequence, w);
    }
    FewLeavesEnough(batch, Got(t.arrivals, w), t.redundancy);
  }

  lemma ReceivedIsTheFrame(layout: Layout, frame: seq<byte>)
    ensures IsTheFrame(Received(layout, frame), frame, layout.Sliced?)
  {
    DivCeilBounds(|frame|, FEC_SHARD_SIZE);
  }

  /**
   * A protected frame comes out exactly if every code word misses at most max(1, ceil(data * redundancy)) of its
   * shards, whatever else happens to its packets, and then it comes out once and intact.
   */
  lemma LossTolerated(c: Codec, state: Receiver, t: Transmission)
    requires t.Possible(c) && NotHolding(state, t.frameIndex)
    requires t.frame != [] && !t.FrameLayout().Unprotected?
    ensures
      var outputs := FeedAll(c, state, Packets(t.Batches(c), t.arrivals)).outputs;
      if FewMissingEverywhere(c, t) then
        && |outputs| == 1 && outputs[0].frameIndex == t.frameIndex && outputs[0].isKeyframe == t.isKeyframe
        && IsTheFrame(outputs[0].data, t.frame, t.FrameLayout().Sliced?)
      else outputs == []
  {
    EndToEnd(c, state, t);
    forall w | 0 <= w < |t.Words(c)|
      ensures FewMissing(t.Batches(c)[w], Got(t.arrivals, w), t.redundancy) <==>
              |Got(t.arrivals, w)| >= t.Words(c)[w].dataCount
    {
      EnoughExactly(c, t, w);
    }
    assert FewMissingEverywhere(c, t) <==> t.Enough(c);
    NothingSentExactly(c, t.redundancy, t.sliceFecEnabled, t.sliceCount, t.frame, t.isKeyframe);
    ReceivedIsTheFrame(t.FrameLayout(), t.frame);
  }
}
