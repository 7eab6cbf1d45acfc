/** End-to-end delivery of the frames that `FrameFecEncoder` sends. */
module FrameDelivery {
  import opened Options
  import opened Bytes
  import opened ErasureCode
  import opened FecEncoding
  import opened FecLayout
  import opened VideoPacket
  import opened FrameSender
  import opened FrameReassembly
  import opened VideoDelivery
  import XorCode
  import FramePose
  import opened Machine

  // ---- the packets of a frame ----

  /** Batch `w` is code word `w`, numbered on from the words before it. */
  lemma {:induction false} NumberedAt(words: seq<CodeWord>, frameIndex: u32, timestamp: u32, first: u16, w: nat)
    requires w < |words|
    ensures NumberedBatches(words, frameIndex, timestamp, first)[w] ==
            WordBatch(words[w], frameIndex, timestamp, NextSequence(words[..w], first))
    ensures NumberedBatches(words, frameIndex, timestamp, first)[..w] == NumberedBatches(words[..w], frameIndex, timestamp, first)
    decreases |words|
  {
    var before := words[..|words| - 1];
    if w < |before| {
      NumberedAt(before, frameIndex, timestamp, first, w);
      assert before[..w] == words[..w];
    }
  }

  lemma ShardComesThrough(f: SentFrame, timestamp: u32, first: u16, w: nat, i: nat)
    requires WellSent(f) && w < |f.words| && i < |f.words[w].shards|
    ensures
      var batch := WordBatch(f.words[w], f.frameIndex, timestamp, first);
      |batch| == |f.words[w].shards| && Screen(batch[i]) == Some(ScreenedShard(f, w, i))
  {
    var word := f.words[w];
    assert word.dataCount % 0x1_0000 == word.dataCount;
    var p := WordBatch(word, f.frameIndex, timestamp, first)[i];
    var h := FvpHeader(f.frameIndex, i, |word.shards|, word.flags, word.dataCount);
    assert ReadFvpHeader(p) == Some(h) && p[PACKET_HEADER_LEN..] == word.shards[i] by {
      BatchPacket(word.shards, word.dataCount, f.frameIndex, timestamp, word.flags, first, i);
    }
  }

  /** Every packet of a well-formed frame comes out of the receiver's header checks intact. */
  lemma PacketsCarryFrame(f: SentFrame, timestamp: u32, first: u16)
    requires WellSent(f)
    ensures CarriesFrame(NumberedBatches(f.words, f.frameIndex, timestamp, first), f)
  {
    var batches := NumberedBatches(f.words, f.frameIndex, timestamp, first);
    forall w | 0 <= w < |f.words|
      ensures |batches[w]| == |f.words[w].shards|
      ensures forall i | 0 <= i < |batches[w]| :: Screen(batches[w][i]) == Some(ScreenedShard(f, w, i))
    {
      NumberedAt(f.words, f.frameIndex, timestamp, first, w);
      ShardComesThrough(f, timestamp, NextSequence(f.words[..w], first), w, 0);
      forall i | 0 <= i < |batches[w]|
        ensures Screen(batches[w][i]) == Some(ScreenedShard(f, w, i))
      {
        ShardComesThrough(f, timestamp, NextSequence(f.words[..w], first), w, i);
      }
    }
  }

  // ---- the code words of a frame ----

  /** `w` codes `content`, with parity or (`plain`) without. */
  ghost predicate Codes(c: Codec, redundancy: real, w: CodeWord, content: seq<byte>, plain: bool) {
    var data := ToDataShards(content);
    && w.dataCount == |data| > 0
    && if plain then w.shards == data else EncodeWord(c, redundancy, data) == Ok(w.shards)
  }

  lemma HeldAll(held: seq<Option<Shard>>)
    requires |HeldIndices(held)| >= |held|
    ensures AllHeld(held)
  {
    forall i | 0 <= i < |held|
      ensures held[i].Some?
    {
      if held[i].None? {
        var more := HeldIndices(held) + {i};
        assert |more| == |HeldIndices(held)| + 1;
        XorCode.IndicesBelow(more, |held|);
      }
    }
  }

  /** Enough shards of a code word rebuild the data shards it codes. */
  lemma RebuildsShards(c: Codec, redundancy: real, w: CodeWord, content: seq<byte>, plain: bool, held: seq<Option<Shard>>)
    requires Codes(c, redundancy, w, content, plain) && ParityShaped(c)
    requires !plain ==> AnyDRecover(c, w.dataCount, ParityFor(w.dataCount, redundancy))
    requires ErasureOf(held, w.shards) && |HeldIndices(held)| >= w.dataCount
    ensures w.dataCount <= |w.shards|
    ensures Rebuild(c, held, w.dataCount) == Some(ToDataShards(content))
  {
    var data := ToDataShards(content);
    DataShards(content);
    if plain {
      HeldAll(held);
      assert held[..w.dataCount] == held;
    } else {
      EncodedWordShape(c, redundancy, data);
    }
    if AllHeld(held[..w.dataCount]) {
      assert Values(held[..w.dataCount]) == data;
    }
  }

  lemma PrefixReads(data: seq<byte>, len: u32)
    requires |data| >= 4 && data[..4] == Le32(len)
    ensures FromLe32(data[0], data[1], data[2], data[3]) == len
  {
    Le32RoundTrip(len);
    var s := Le32(len);
    assert data[0] == s[0] && data[1] == s[1] && data[2] == s[2] && data[3] == s[3];
  }

  lemma StripsToSlice(slice: seq<byte>, padding: nat)
    requires |slice| < 0x1_0000_0000
    ensures StripPrefix(Prefixed(slice) + Zeros(padding)) == Some(slice)
  {
    var data := Prefixed(slice) + Zeros(padding);
    assert |slice| % 0x1_0000_0000 == |slice|;
    assert data[..4] == Le32(|slice|);
    PrefixReads(data, |slice|);
    assert data[4..4 + |slice|] == slice;
  }

  lemma RebuildsContent(c: Codec, redundancy: real, w: CodeWord, content: seq<byte>, plain: bool)
    requires Codes(c, redundancy, w, content, plain) && ParityShaped(c)
    requires !plain ==> AnyDRecover(c, w.dataCount, ParityFor(w.dataCount, redundancy))
    ensures w.dataCount <= |w.shards|
    ensures RebuildsTo(c, w, false, content + Zeros(Padding(|content|)))
    ensures forall slice: seq<byte> | content == Prefixed(slice) && |slice| < 0x1_0000_0000 :: RebuildsTo(c, w, true, slice)
  {
    DataShards(content);
    if !plain {
      EncodedWordShape(c, redundancy, ToDataShards(content));
    }
    forall held: seq<Option<Shard>> | ErasureOf(held, w.shards) && |HeldIndices(held)| >= w.dataCount
      ensures Rebuild(c, held, w.dataCount) == Some(ToDataShards(content))
    {
      RebuildsShards(c, redundancy, w, content, plain, held);
    }
    forall slice: seq<byte> | content == Prefixed(slice) && |slice| < 0x1_0000_0000
      ensures RebuildsTo(c, w, true, slice)
    {
      StripsToSlice(slice, Padding(|content|));
    }
  }

  /** How `FrameFecEncoder` lays out a frame, at the redundancy in force. */
  function LayoutOf(redundancy: real, sliceFecEnabled: bool, sliceCount: byte, frame: seq<byte>): Layout {
    ChooseFecLayout(|frame|, sliceFecEnabled, sliceCount, MaxDataShards(redundancy))
  }

  function SliceCountFor(layout: Layout): nat {
    if layout.Sliced? then layout.count else 0
  }

  /** What the receiver hands on: the frame, zero-padded to whole shards unless it was sliced. */
  function Received(layout: Layout, frame: seq<byte>): seq<byte> {
    if layout.Sliced? then frame else frame + Zeros(Padding(|frame|))
  }

  /** The data each code word rebuilds to. */
  function Contents(layout: Layout, frame: seq<byte>): seq<seq<byte>>
    requires layout.Sliced? ==> layout.count > 0
  {
    if layout.Sliced? then SliceSplitter.Slices(frame, layout.count) else [Received(layout, frame)]
  }

  /** The codec recovers every code word the encoder produces at this redundancy. */
  ghost predicate CodecRecovers(c: Codec, redundancy: real) {
    && ParityShaped(c)
    && forall d: nat | RsAccepts(d, ParityFor(d, redundancy)) :: AnyDRecover(c, d, ParityFor(d, redundancy))
  }

  /** The hypothesis can be met: the XOR code does at the lowest redundancy, one parity shard per word. */
  lemma XorRecoversEveryWord()
    ensures CodecRecovers(XorCode.XOR_CODEC, 0.0)
  {
    XorCode.XorShaped();
    forall d: nat | RsAccepts(d, ParityFor(d, 0.0))
      ensures AnyDRecover(XorCode.XOR_CODEC, d, ParityFor(d, 0.0))
    {
      assert d as real * 0.0 == 0.0;
      XorCode.XorRecovers(d);
    }
  }

  lemma SimpleFlags(isKeyframe: bool)
    ensures SliceCountOf(EncodeSimpleFlags(isKeyframe)) == 0
    ensures IsKeyframe(EncodeSimpleFlags(isKeyframe)) == isKeyframe
  {
  }

  lemma {:induction false} EncodeSlicesAt(c: Codec, redundancies: seq<real>, slices: seq<seq<byte>>, isKeyframe: bool,
                                          i: nat, k: nat)
    requires i <= k < |slices| <= |redundancies| && |slices| <= MAX_SLICE_COUNT
    requires EncodeSlices(c, redundancies, slices, isKeyframe, i).complete
    ensures
      var words := EncodeSlices(c, redundancies, slices, isKeyframe, i).words;
      |words| == |slices| - i && Some(words[k - i]) == SliceWord(c, redundancies[k], slices, isKeyframe, k)
    decreases |slices| - i
  {
    if i < k {
      EncodeSlicesAt(c, redundancies, slices, isKeyframe, i + 1, k);
    } else if i + 1 < |slices| {
      EncodeSlicesAt(c, redundancies, slices, isKeyframe, i + 1, i + 1);
    }
  }

  /** What the receiver needs to know about one code word of a frame. */
  ghost predicate GoodWord(c: Codec, redundancy: real, layout: Layout, frame: seq<byte>, isKeyframe: bool,
                           words: seq<CodeWord>, w: nat)
    requires layout.Sliced? ==> layout.count > 0
    requires w < |words| == |Contents(layout, frame)|
  {
    var word := words[w];
    && 0 < word.dataCount <= |word.shards| <= VideoPacket.MAX_FRAME_SHARDS
    && Uniform(word.shards, FEC_SHARD_SIZE)
    && SliceCountOf(word.flags) == SliceCountFor(layout)
    && (layout.Sliced? ==> SliceIndexOf(word.flags) == w)
    && IsKeyframe(word.flags) == isKeyframe
    && RebuildsTo(c, word, layout.Sliced?, Contents(layout, frame)[w])
  }

  lemma GoodSingle(c: Codec, redundancy: real, layout: Layout, frame: seq<byte>, isKeyframe: bool, w: CodeWord)
    requires CodecRecovers(c, redundancy) && !layout.Sliced?
    requires Codes(c, redundancy, w, frame, layout.Unprotected?) && |w.shards| <= VideoPacket.MAX_FRAME_SHARDS
    requires w.flags == EncodeSimpleFlags(isKeyframe)
    ensures GoodWord(c, redundancy, layout, frame, isKeyframe, [w], 0)
  {
    SimpleFlags(isKeyframe);
    DataShards(frame);
    if layout.Bulk? {
      EncodedWordShape(c, redundancy, ToDataShards(frame));
    }
    RebuildsContent(c, redundancy, w, frame, layout.Unprotected?);
  }

  lemma SliceFits32(sliceLen: nat, max: nat)
    requires SliceDataShards(sliceLen) <= max <= 255
    ensures sliceLen < 0x1_0000_0000
  {
    DivCeilLeast(sliceLen + FecLayout.SLICE_LEN_PREFIX, FEC_SHARD_SIZE, 255);
  }

  /** The words of a sliced frame, slice by slice. */
  lemma SlicedWords(c: Codec, redundancy: real, sliceFecEnabled: bool, sliceCount: byte, frame: seq<byte>,
                    isKeyframe: bool, w: nat)
    requires 0.0 <= redundancy <= 1.0 && frame != []
    requires LayoutOf(redundancy, sliceFecEnabled, sliceCount, frame).Sliced?
    requires w < LayoutOf(redundancy, sliceFecEnabled, sliceCount, frame).count
    ensures
      var n := LayoutOf(redundancy, sliceFecEnabled, sliceCount, frame).count;
      var words := FrameWords(c, redundancy, sliceFecEnabled, sliceCount, frame, isKeyframe);
      var slices := SliceSplitter.Slices(frame, n);
      && n <= MAX_SLICE_COUNT && |words| == n
      && Some(words[w]) == SliceWord(c, redundancy, slices, isKeyframe, w)
      && SliceDataShards(|slices[w]|) <= MaxDataShards(redundancy) <= 255
  {
    var n := LayoutOf(redundancy, sliceFecEnabled, sliceCount, frame).count;
    EncodersNeverFail(c, redundancy, sliceFecEnabled, sliceCount, frame, isKeyframe);
    EncodeSlicesAt(c, SliceRedundancies(redundancy), SliceSplitter.Slices(frame, n), isKeyframe, 0, w);
    MaxDataShardsExact(0, redundancy);
    SlicedIsLeastFit(frame, sliceFecEnabled, sliceCount, MaxDataShards(redundancy), n);
  }

  lemma GoodSlice(c: Codec, redundancy: real, layout: Layout, frame: seq<byte>, isKeyframe: bool,
                  words: seq<CodeWord>, w: nat)
    requires CodecRecovers(c, redundancy)
    requires layout.Sliced? && w < layout.count == |words| <= MAX_SLICE_COUNT
    requires Some(words[w]) == SliceWord(c, redundancy, SliceSplitter.Slices(frame, layout.count), isKeyframe, w)
    requires |SliceSplitter.Slices(frame, layout.count)[w]| < 0x1_0000_0000
    ensures GoodWord(c, redundancy, layout, frame, isKeyframe, words, w)
  {
    var content := Prefixed(SliceSplitter.Slices(frame, layout.count)[w]);
    DataShards(content);
    EncodedWordShape(c, redundancy, ToDataShards(content));
    FlagsKept(isKeyframe, w, layout.count, 0);
    RebuildsContent(c, redundancy, words[w], content, false);
  }

  /** A frame is not sent exactly when it is empty, or goes unprotected with too many shards. */
  lemma NothingSentExactly(c: Codec, redundancy: real, sliceFecEnabled: bool, sliceCount: byte, frame: seq<byte>,
                           isKeyframe: bool)
    requires ParityShaped(c) && 0.0 <= redundancy <= 1.0
    ensures
      FrameWords(c, redundancy, sliceFecEnabled, sliceCount, frame, isKeyframe) == []
      <==> (|| frame == []
            || (&& LayoutOf(redundancy, sliceFecEnabled, sliceCount, frame).Unprotected?
                && DivCeil(|frame|, FEC_SHARD_SIZE) > VideoPacket.MAX_FRAME_SHARDS))
  {
    var layout := LayoutOf(redundancy, sliceFecEnabled, sliceCount, frame);
    DataShards(frame);
    MaxDataShardsExact(0, redundancy);
    LayoutClosedForm(|frame|, sliceFecEnabled, sliceCount, MaxDataShards(redundancy));
    if frame != [] {
      EncodersNeverFail(c, redundancy, sliceFecEnabled, sliceCount, frame, isKeyframe);
      if layout.Bulk? {
        EncodedWordShape(c, redundancy, ToDataShards(frame));
      } else if layout.Sliced? {
        EncodeSlicesAt(c, SliceRedundancies(redundancy), SliceSplitter.Slices(frame, layout.count), isKeyframe, 0, 0);
      }
    } else {
      DivCeilLeast(0, SliceCapacity(MaxDataShards(redundancy)), 0);
    }
  }

  /** The code words of a frame that is sent are what its receiver expects. */
  lemma FrameWordsGood(c: Codec, redundancy: real, sliceFecEnabled: bool, sliceCount: byte, frame: seq<byte>,
                       isKeyframe: bool, w: nat)
    requires CodecRecovers(c, redundancy) && 0.0 <= redundancy <= 1.0
    requires FrameWords(c, redundancy, sliceFecEnabled, sliceCount, frame, isKeyframe) != []
    ensures frame != []
    ensures
      var layout := LayoutOf(redundancy, sliceFecEnabled, sliceCount, frame);
      var words := FrameWords(c, redundancy, sliceFecEnabled, sliceCount, frame, isKeyframe);
      && |words| == |Contents(layout, frame)| == GroupCount(SliceCountFor(layout))
      && (w < |words| ==> GoodWord(c, redundancy, layout, frame, isKeyframe, words, w))
  {
    NothingSentExactly(c, redundancy, sliceFecEnabled, sliceCount, frame, isKeyframe);
    var layout := LayoutOf(redundancy, sliceFecEnabled, sliceCount, frame);
    var words := FrameWords(c, redundancy, sliceFecEnabled, sliceCount, frame, isKeyframe);
    EncodersNeverFail(c, redundancy, sliceFecEnabled, sliceCount, frame, isKeyframe);
    if layout.Sliced? {
      var v := if w < layout.count then w else 0;
      SlicedWords(c, redundancy, sliceFecEnabled, sliceCount, frame, isKeyframe, v);
      SliceFits32(|SliceSplitter.Slices(frame, layout.count)[v]|, MaxDataShards(redundancy));
      GoodSlice(c, redundancy, layout, frame, isKeyframe, words, v);
    } else {
      DataShards(frame);
      assert |words| == 1 && words == [words[0]];
      GoodSingle(c, redundancy, layout, frame, isKeyframe, words[0]);
    }
  }

  // ---- end to end ----

  /** One frame on its way: how it was encoded and which packets arrived. */
  datatype Transmission = Transmission(
    redundancy: real,
    sliceFecEnabled: bool,
    sliceCount: byte,
    frame: seq<byte>,
    frameIndex: u32,
    timestamp: u32,
    isKeyframe: bool,
    firstSequence: u16,
    arrivals: seq<Arrival>)
  {
    function Words(c: Codec): seq<CodeWord> {
      FrameWords(c, redundancy, sliceFecEnabled, sliceCount, frame, isKeyframe)
    }

    /** What `FrameFecEncoder.Encode` returns. */
    function Batches(c: Codec): seq<seq<seq<byte>>> {
      NumberedBatches(Words(c), frameIndex, timestamp, firstSequence)
    }

    /** Every code word got at least as many distinct shards as it has data shards. */
    predicate Enough(c: Codec) {
      forall w | 0 <= w < |Words(c)| :: |Got(arrivals, w)| >= Words(c)[w].dataCount
    }

    function FrameLayout(): Layout {
      LayoutOf(redundancy, sliceFecEnabled, sliceCount, frame)
    }

    /** What should come out of the receiver. */
    function Expected(c: Codec): seq<Frame> {
      if Words(c) != [] && Enough(c) then [Frame(frameIndex, isKeyframe, Received(FrameLayout(), frame))] else []
    }

    ghost predicate Possible(c: Codec) {
      && 0.0 <= redundancy <= 1.0
      && CodecRecovers(c, redundancy)
      && FromFrame(Batches(c), arrivals)
    }
  }

  /** The frame as its receiver sees it. */
  function AsSent(c: Codec, t: Transmission): SentFrame {
    SentFrame(t.frameIndex, t.isKeyframe, SliceCountFor(t.FrameLayout()), t.Words(c))
  }

  lemma GoodWordsMakeFrame(c: Codec, redundancy: real, layout: Layout, frame: seq<byte>, isKeyframe: bool,
                           frameIndex: u32, words: seq<CodeWord>)
    requires layout.Sliced? ==> layout.count > 0
    requires |words| == |Contents(layout, frame)| == GroupCount(SliceCountFor(layout))
    requires forall w | 0 <= w < |words| :: GoodWord(c, redundancy, layout, frame, isKeyframe, words, w)
    ensures
      var f := SentFrame(frameIndex, isKeyframe, SliceCountFor(layout), words);
      WellSent(f) && Rebuildable(c, f, Contents(layout, frame))
  {
    var f := SentFrame(frameIndex, isKeyframe, SliceCountFor(layout), words);
    forall w | 0 <= w < |words|
      ensures 0 < words[w].dataCount <= |words[w].shards| <= VideoPacket.MAX_FRAME_SHARDS
      ensures Uniform(words[w].shards, FEC_SHARD_SIZE)
      ensures SliceCountOf(words[w].flags) == f.sliceCount
      ensures f.sliceCount > 0 ==> SliceIndexOf(words[w].flags) == w
      ensures IsKeyframe(words[w].flags) == isKeyframe
      ensures RebuildsTo(c, words[w], f.sliceCount > 0, Contents(layout, frame)[w])
    {
      assert GoodWord(c, redundancy, layout, frame, isKeyframe, words, w);
    }
    assert WellSent(f);
  }

  lemma SentFrameGood(c: Codec, t: Transmission)
    requires t.Possible(c) && t.Words(c) != []
    ensures
      var f := AsSent(c, t);
      && WellSent(f) && |Contents(t.FrameLayout(), t.frame)| == |f.words|
      && Rebuildable(c, f, Contents(t.FrameLayout(), t.frame))
  {
    var layout, words := t.FrameLayout(), t.Words(c);
    FrameWordsGood(c, t.redundancy, t.sliceFecEnabled, t.sliceCount, t.frame, t.isKeyframe, |words|);
    forall w | 0 <= w < |words|
      ensures GoodWord(c, t.redundancy, layout, t.frame, t.isKeyframe, words, w)
    {
      FrameWordsGood(c, t.redundancy, t.sliceFecEnabled, t.sliceCount, t.frame, t.isKeyframe, w);
    }
    GoodWordsMakeFrame(c, t.redundancy, layout, t.frame, t.isKeyframe, t.frameIndex, words);
  }

  lemma ContentsMakeFrame(layout: Layout, frame: seq<byte>)
    requires layout.Sliced? ==> layout.count > 0
    ensures Flatten(Contents(layout, frame)) == Received(layout, frame)
  {
    if layout.Sliced? {
      SliceSplitter.SlicesConcatenate(frame, layout.count);
    } else {
      FlattenOne(Received(layout, frame));
    }
  }

  /** The receiver is on the frame if any of its packets arrived, and as before otherwise. */
  predicate Moved(before: Receiver, after: Receiver, frameIndex: u32, arrivals: seq<Arrival>) {
    if AnySent(arrivals) then after.Some? && after.value.frameIndex == frameIndex else after == before
  }

  /** Delivery of a frame with good code words. */
  lemma GoodFrameDelivers(c: Codec, state: Receiver, f: SentFrame, layout: Layout, frame: seq<byte>, timestamp: u32,
                          first: u16, arrivals: seq<Arrival>)
    requires layout.Sliced? ==> layout.count > 0
    requires WellSent(f) && |Contents(layout, frame)| == |f.words| && Rebuildable(c, f, Contents(layout, frame))
    requires NotHolding(state, f.frameIndex)
    requires FromFrame(NumberedBatches(f.words, f.frameIndex, timestamp, first), arrivals)
    ensures
      var run := FeedAll(c, state, Packets(NumberedBatches(f.words, f.frameIndex, timestamp, first), arrivals));
      var enough := forall w | 0 <= w < |f.words| :: |Got(arrivals, w)| >= f.words[w].dataCount;
      && run.outputs == (if enough then [Frame(f.frameIndex, f.isKeyframe, Received(layout, frame))] else [])
      && Moved(state, run.state, f.frameIndex, arrivals)
  {
    PacketsCarryFrame(f, timestamp, first);
    ReceiverDelivers(c, state, f, NumberedBatches(f.words, f.frameIndex, timestamp, first), arrivals, Contents(layout, frame));
    ContentsMakeFrame(layout, frame);
  }

  lemma SentFrameDelivers(c: Codec, state: Receiver, t: Transmission)
    requires t.Possible(c) && NotHolding(state, t.frameIndex) && t.Words(c) != []
    ensures
      var run := FeedAll(c, state, Packets(t.Batches(c), t.arrivals));
      && run.outputs == t.Expected(c)
      && Moved(state, run.state, t.frameIndex, t.arrivals)
  {
    SentFrameGood(c, t);
    GoodFrameDelivers(c, state, AsSent(c, t), t.FrameLayout(), t.frame, t.timestamp, t.firstSequence, t.arrivals);
  }

  /**
   * Encoding a frame, losing, duplicating and reordering its packets, and
   * reassembling gives the frame exactly once if every code word gets enough
   * distinct shards, and nothing otherwise.
   */
  lemma EndToEnd(c: Codec, state: Receiver, t: Transmission)
    requires t.Possible(c) && NotHolding(state, t.frameIndex)
    ensures
      var run := FeedAll(c, state, Packets(t.Batches(c), t.arrivals));
      && run.outputs == t.Expected(c)
      && Moved(state, run.state, t.frameIndex, t.arrivals)
  {
    if t.Words(c) == [] {
      JunkOnly(c, state, t.Batches(c), t.arrivals);
    } else {
      SentFrameDelivers(c, state, t);
    }
  }

  lemma {:induction false} JunkOnly(c: Codec, state: Receiver, batches: seq<seq<seq<byte>>>, arrivals: seq<Arrival>)
    requires batches == [] && FromFrame(batches, arrivals)
    ensures FeedAll(c, state, Packets(batches, arrivals)) == Outcome(state, [])
    decreases |arrivals|
  {
    if arrivals != [] {
      assert Admissible(batches, arrivals[0]);
      JunkOnly(c, state, batches, arrivals[1..]);
      RunStep(c, state, batches, arrivals);
    }
  }

  predicate Receivable(c: Codec, ts: seq<Transmission>) {
    forall k | 0 <= k < |ts| :: FromFrame(ts[k].Batches(c), ts[k].arrivals)
  }

  /** The transmissions' packets one after the other. */
  function SessionPackets(c: Codec, ts: seq<Transmission>): seq<seq<byte>>
    requires Receivable(c, ts)
  {
    if ts == [] then [] else Packets(ts[0].Batches(c), ts[0].arrivals) + SessionPackets(c, ts[1..])
  }

  function SessionFrames(c: Codec, ts: seq<Transmission>): seq<Frame> {
    if ts == [] then [] else ts[0].Expected(c) + SessionFrames(c, ts[1..])
  }

  /** Each transmission is of another frame than the one before, and got a packet if another follows it. */
  predicate Alternating(ts: seq<Transmission>) {
    |ts| <= 1 || (AnySent(ts[0].arrivals) && ts[0].frameIndex != ts[1].frameIndex && Alternating(ts[1..]))
  }

  /**
   * A session of transmissions one after the other, some perhaps of the same frame: whatever happens to
   * the packets of each, and whatever redundancy and layout it was sent with, exactly those come out
   * whose code words got enough shards, in order.
   */
  lemma {:induction false} SessionDelivers(c: Codec, state: Receiver, ts: seq<Transmission>)
    requires Receivable(c, ts) && (forall k | 0 <= k < |ts| :: ts[k].Possible(c))
    requires Alternating(ts) && (ts != [] ==> NotHolding(state, ts[0].frameIndex))
    ensures FeedAll(c, state, SessionPackets(c, ts)).outputs == SessionFrames(c, ts)
    decreases |ts|
  {
    if ts != [] {
      var t := ts[0];
      var packets := Packets(t.Batches(c), t.arrivals);
      EndToEnd(c, state, t);
      var run := FeedAll(c, state, packets);
      SessionDelivers(c, run.state, ts[1..]);
      RunConcat(ReceiverStep(c), state, packets, SessionPackets(c, ts[1..]));
    }
  }

  /** A frame's data with its render orientation in front, for a client that reads it (engine.rs). */
  function VideoPayload(framePose: bool, orientation: Option<FramePose.Orientation>, nal: seq<byte>): seq<byte> {
    if framePose then FramePose.Encode(orientation) + nal else nal
  }

  /** The client gets the orientation (if finite) and the NAL data back, padded unless sliced. */
  lemma PosedFrameReads(layout: Layout, orientation: Option<FramePose.Orientation>, nal: seq<byte>)
    ensures
      var payload := VideoPayload(true, orientation, nal);
      var padding := if layout.Sliced? then 0 else Padding(|payload|);
      FramePose.Parse(Received(layout, payload)) ==
      Some(FramePose.Posed(FramePose.Readable(orientation), nal + Zeros(padding)))
  {
    var payload := VideoPayload(true, orientation, nal);
    var padding := if layout.Sliced? then 0 else Padding(|payload|);
    assert Received(layout, payload) == FramePose.Encode(orientation) + (nal + Zeros(padding));
    FramePose.PoseRoundTrip(orientation, nal + Zeros(padding));
  }

  // ---- the packets on the wire ----

  /** Packet `i` of batch `w`, as the network sees it. */
  predicate WirePacket(batches: seq<seq<seq<byte>>>, frameIndex: u32, first: u16, w: nat, i: nat)
    requires w < |batches| && i < |batches[w]|
  {
    && |batches[w][i]| == PACKET_HEADER_LEN + FEC_SHARD_SIZE
    && WireFormat(batches[w][i], frameIndex, i, |batches[w]|, Advance(first, |Flatten(batches[..w])| + i))
  }

  lemma WordPacket(word: CodeWord, frameIndex: u32, timestamp: u32, start: u16, i: nat)
    requires i < |word.shards| <= VideoPacket.MAX_FRAME_SHARDS
    requires 0 < word.dataCount <= |word.shards| && |word.shards[i]| == FEC_SHARD_SIZE
    ensures
      var batch := WordBatch(word, frameIndex, timestamp, start);
      && |batch| == |word.shards|
      && |batch[i]| == PACKET_HEADER_LEN + FEC_SHARD_SIZE
      && WireFormat(batch[i], frameIndex, i, |batch|, Advance(start, i))
  {
    assert word.dataCount % 0x1_0000 == word.dataCount;
    BatchPacket(word.shards, word.dataCount, frameIndex, timestamp, word.flags, start, i);
  }

  lemma NumberedPacket(words: seq<CodeWord>, frameIndex: u32, timestamp: u32, first: u16, w: nat, i: nat)
    requires w < |words| && i < |words[w].shards| <= VideoPacket.MAX_FRAME_SHARDS
    requires 0 < words[w].dataCount <= |words[w].shards| && |words[w].shards[i]| == FEC_SHARD_SIZE
    ensures |NumberedBatches(words, frameIndex, timestamp, first)[w]| == |words[w].shards|
    ensures WirePacket(NumberedBatches(words, frameIndex, timestamp, first), frameIndex, first, w, i)
  {
    NumberedAt(words, frameIndex, timestamp, first, w);
    FlattenedCount(words[..w], frameIndex, timestamp, first);
    AdvanceTwice(first, TotalShards(words[..w]), i);
    WordPacket(words[w], frameIndex, timestamp, NextSequence(words[..w], first), i);
  }

  /**
   * Every packet sent is 1224 bytes with a valid header, numbered 0..n-1
   * within its batch and consecutively (mod 2^16) across batches, and only a
   * batch's last packet has the marker.
   */
  lemma PacketsOnTheWire(c: Codec, t: Transmission, w: nat, i: nat)
    requires CodecRecovers(c, t.redundancy) && 0.0 <= t.redundancy <= 1.0
    requires w < |t.Batches(c)| && i < |t.Batches(c)[w]|
    ensures WirePacket(t.Batches(c), t.frameIndex, t.firstSequence, w, i)
  {
    WordsAcceptable(c, t);
    NumberedAt(t.Words(c), t.frameIndex, t.timestamp, t.firstSequence, w);
    NumberedPacket(t.Words(c), t.frameIndex, t.timestamp, t.firstSequence, w, i);
  }

  lemma WordsAcceptable(c: Codec, t: Transmission)
    requires CodecRecovers(c, t.redundancy) && 0.0 <= t.redundancy <= 1.0
    ensures forall w | 0 <= w < |t.Words(c)| ::
      && 0 < t.Words(c)[w].dataCount <= |t.Words(c)[w].shards| <= VideoPacket.MAX_FRAME_SHARDS
      && Uniform(t.Words(c)[w].shards, FEC_SHARD_SIZE)
  {
    var words := t.Words(c);
    forall w | 0 <= w < |words|
      ensures 0 < words[w].dataCount <= |words[w].shards| <= VideoPacket.MAX_FRAME_SHARDS
      ensures Uniform(words[w].shards, FEC_SHARD_SIZE)
    {
      FrameWordsGood(c, t.redundancy, t.sliceFecEnabled, t.sliceCount, t.frame, t.isKeyframe, w);
    }
  }

  lemma {:induction false} FlattenedCount(words: seq<CodeWord>, frameIndex: u32, timestamp: u32, first: u16)
    ensures |Flatten(NumberedBatches(words, frameIndex, timestamp, first))| == TotalShards(words)
    decreases |words|
  {
    if words != [] {
      var before := words[..|words| - 1];
      FlattenedCount(before, frameIndex, timestamp, first);
      FlattenSnoc(NumberedBatches(before, frameIndex, timestamp, first),
                  WordBatch(words[|words| - 1], frameIndex, timestamp, NextSequence(before, first)));
    }
  }
}
