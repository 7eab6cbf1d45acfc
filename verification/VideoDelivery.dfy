/**
 * The sender and the receiver undo each other across a channel that loses,
 * duplicates and reorders packets.
 */
module VideoDelivery {
  import opened Options
  import opened Bytes
  import opened ErasureCode
  import opened FecLayout
  import opened VideoPacket
  import opened FrameSender
  import opened FrameReassembly
  import opened Machine

  // ---- runs of the receiver ----

  function OutputSeq(output: Option<Frame>): seq<Frame> {
    if output.Some? then [output.value] else []
  }

  function FeedOne(c: Codec, state: Receiver, packet: seq<byte>): Outcome<Receiver, Frame> {
    FeedKeepsOk(c, state, packet);
    var fed := Feed(c, state, packet);
    Outcome(fed.state, OutputSeq(fed.output))
  }

  function ReceiverStep(c: Codec): (Receiver, seq<byte>) -> Outcome<Receiver, Frame> {
    (state: Receiver, packet: seq<byte>) => FeedOne(c, state, packet)
  }

  /** Feed packets one after the other, collecting what comes out. */
  function FeedAll(c: Codec, state: Receiver, packets: seq<seq<byte>>): Outcome<Receiver, Frame> {
    Run(ReceiverStep(c), state, packets)
  }

  // ---- what the channel delivers ----

  /** A packet of the frame, by code word and shard, or one that fails the header checks. */
  datatype Arrival = Sent(word: nat, shard: nat) | Junk(bytes: seq<byte>)

  predicate Admissible(batches: seq<seq<seq<byte>>>, a: Arrival) {
    match a
    case Sent(w, i) => w < |batches| && i < |batches[w]|
    case Junk(bytes) => Screen(bytes).None?
  }

  predicate FromFrame(batches: seq<seq<seq<byte>>>, arrivals: seq<Arrival>) {
    forall k | 0 <= k < |arrivals| :: Admissible(batches, arrivals[k])
  }

  function PacketOf(batches: seq<seq<seq<byte>>>, a: Arrival): seq<byte>
    requires Admissible(batches, a)
  {
    match a
    case Sent(w, i) => batches[w][i]
    case Junk(bytes) => bytes
  }

  function Packets(batches: seq<seq<seq<byte>>>, arrivals: seq<Arrival>): seq<seq<byte>>
    requires FromFrame(batches, arrivals)
  {
    if arrivals == [] then []
    else [PacketOf(batches, arrivals[0])] + Packets(batches, arrivals[1..])
  }

  /** The distinct shards of code word `w` among the arrivals. */
  function Got(arrivals: seq<Arrival>, w: nat): set<nat> {
    set k | 0 <= k < |arrivals| && arrivals[k].Sent? && arrivals[k].word == w :: arrivals[k].shard
  }

  // ---- a frame as the receiver sees it ----

  /** A frame's code words as they are numbered in the headers. */
  datatype SentFrame = SentFrame(frameIndex: u32, isKeyframe: bool, sliceCount: nat, words: seq<CodeWord>)

  predicate WellSent(f: SentFrame) {
    && |f.words| == GroupCount(f.sliceCount)
    && forall w | 0 <= w < |f.words| ::
      && 0 < f.words[w].dataCount <= |f.words[w].shards| <= VideoPacket.MAX_FRAME_SHARDS
      && Uniform(f.words[w].shards, FEC_SHARD_SIZE)
      && SliceCountOf(f.words[w].flags) == f.sliceCount
      && (f.sliceCount > 0 ==> SliceIndexOf(f.words[w].flags) == w)
      && IsKeyframe(f.words[w].flags) == f.isKeyframe
  }

  /** Packet `i` of code word `w`, as it comes out of the header checks. */
  function ScreenedShard(f: SentFrame, w: nat, i: nat): (s: Screened)
    requires WellSent(f) && w < |f.words| && i < |f.words[w].shards|
    ensures ScreenedOk(s) && GroupIndex(s) == w
  {
    var word := f.words[w];
    Screened(FvpHeader(f.frameIndex, i, |word.shards|, word.flags, word.dataCount), word.shards[i],
             f.sliceCount, SliceIndexOf(word.flags))
  }

  /** Enough shards of a code word rebuild to `result`. */
  ghost predicate RebuildsTo(c: Codec, w: CodeWord, hasLenPrefix: bool, result: seq<byte>)
    requires w.dataCount <= |w.shards|
  {
    forall held: seq<Option<Shard>> | ErasureOf(held, w.shards) && |HeldIndices(held)| >= w.dataCount ::
      && Rebuild(c, held, w.dataCount).Some?
      && Payload(Rebuild(c, held, w.dataCount).value, hasLenPrefix) == Some(result)
  }

  // ---- the receiver's state against the shards that arrived ----

  ghost predicate GroupHolds(g: Group, w: CodeWord, got: set<nat>, result: seq<byte>) {
    if got == {} then g == EMPTY_GROUP
    else if |got| < w.dataCount then
      && g == Group(|w.shards|, w.dataCount, FEC_SHARD_SIZE, g.shards, |got|, None, false)
      && ErasureOf(g.shards, w.shards) && HeldIndices(g.shards) == got
    else g.decoded == Some(result) && !g.failed
  }

  predicate Complete(f: SentFrame, gots: seq<set<nat>>)
    requires |gots| == |f.words|
  {
    forall w | 0 <= w < |gots| :: |gots[w]| >= f.words[w].dataCount
  }

  ghost predicate PendingHolds(p: Pending, f: SentFrame, gots: seq<set<nat>>, results: seq<seq<byte>>)
    requires |gots| == |results| == |f.words|
  {
    && PendingOk(p)
    && p.frameIndex == f.frameIndex && p.isKeyframe == f.isKeyframe && p.sliceCount == f.sliceCount
    && |p.groups| == |f.words|
    && (p.delivered <==> Complete(f, gots))
    && (!p.delivered ==> forall w | 0 <= w < |gots| :: GroupHolds(p.groups[w], f.words[w], gots[w], results[w]))
  }

  /** Still in the starting state, or holding exactly the shards in `gots`. */
  ghost predicate StateHolds(state: Receiver, start: Receiver, f: SentFrame, gots: seq<set<nat>>, results: seq<seq<byte>>)
    requires |gots| == |results| == |f.words|
  {
    if gots == NoneGot(|f.words|) then state == start
    else state.Some? && PendingHolds(state.value, f, gots, results)
  }

  predicate NotHolding(state: Option<Pending>, frameIndex: u32) {
    state.Some? ==> state.value.frameIndex != frameIndex
  }

  /** One shard of code word `w` in its group. */
  lemma GroupHoldsStep(c: Codec, f: SentFrame, w: nat, i: nat, g: Group, got: set<nat>, result: seq<byte>)
    requires WellSent(f) && w < |f.words| && i < |f.words[w].shards|
    requires RebuildsTo(c, f.words[w], f.sliceCount > 0, result)
    requires GroupOk(g) && GroupHolds(g, f.words[w], got, result)
    ensures
      var step := StepGroup(c, g, ScreenedShard(f, w, i));
      && GroupHolds(step.group, f.words[w], got + {i}, result)
      && (step.progressed <==> |got| < f.words[w].dataCount && i !in got)
  {
    var word := f.words[w];
    var s := ScreenedShard(f, w, i);
    if got == {} || |got| < word.dataCount {
      if i in got {
        assert got + {i} == got;
      } else {
        StoredShape(g, s);
        var stored := Stored(g, i, |word.shards|, word.dataCount, word.shards[i]);
        if g.shardCount == 0 {
          NoneHeld(|word.shards|);
          HeldGrows(Missing(|word.shards|), i, word.shards[i]);
        } else {
          HeldGrows(g.shards, i, word.shards[i]);
        }
        assert HeldIndices(stored.shards) == got + {i};
        assert ErasureOf(stored.shards, word.shards);
      }
    } else {
      CardinalityGrows(got, i);
    }
  }

  lemma CardinalityGrows(s: set<nat>, i: nat)
    ensures |s + {i}| >= |s|
    ensures i !in s ==> |s + {i}| == |s| + 1
  {
    if i in s {
      assert s + {i} == s;
    }
  }

  lemma {:induction false} GatheredResults(groups: seq<Group>, results: seq<seq<byte>>)
    requires |groups| == |results|
    requires forall w | 0 <= w < |groups| :: groups[w].decoded == Some(results[w])
    ensures Gathered(groups) == Flatten(results)
  {
    if groups != [] {
      GatheredResults(groups[1..], results[1..]);
    }
  }

  /** The frame the receiver emits once every code word has enough shards. */
  function Emitted(f: SentFrame, results: seq<seq<byte>>): Frame {
    Frame(f.frameIndex, f.isKeyframe, Flatten(results))
  }

  ghost predicate Rebuildable(c: Codec, f: SentFrame, results: seq<seq<byte>>)
    requires WellSent(f) && |results| == |f.words|
  {
    forall w | 0 <= w < |results| :: RebuildsTo(c, f.words[w], f.sliceCount > 0, results[w])
  }

  function NoneGot(n: nat): (gots: seq<set<nat>>)
    ensures |gots| == n && forall w | 0 <= w < n :: gots[w] == {}
  {
    seq(n, _ => {})
  }

  lemma NewPendingHolds(f: SentFrame, results: seq<seq<byte>>, w: nat, i: nat)
    requires WellSent(f) && |results| == |f.words| && w < |f.words| && i < |f.words[w].shards|
    ensures PendingHolds(NewPending(ScreenedShard(f, w, i)), f, NoneGot(|f.words|), results)
  {
    NewPendingOk(ScreenedShard(f, w, i));
    assert |NoneGot(|f.words|)[0]| < f.words[0].dataCount;
  }

  function Add(gots: seq<set<nat>>, w: nat, i: nat): (g: seq<set<nat>>)
    requires w < |gots|
    ensures |g| == |gots|
  {
    gots[w := gots[w] + {i}]
  }

  lemma AddGrows(gots: seq<set<nat>>, w: nat, i: nat, v: nat)
    requires w < |gots| && v < |gots|
    ensures |Add(gots, w, i)[v]| >= |gots[v]|
  {
    CardinalityGrows(gots[w], i);
  }

  /** One packet of the frame, while it is being received. */
  lemma PendingHoldsStep(c: Codec, f: SentFrame, p: Pending, gots: seq<set<nat>>, results: seq<seq<byte>>, w: nat, i: nat)
    requires WellSent(f) && |gots| == |results| == |f.words| && w < |f.words| && i < |f.words[w].shards|
    requires Rebuildable(c, f, results)
    requires PendingHolds(p, f, gots, results)
    ensures
      var fed := FeedPending(c, p, ScreenedShard(f, w, i));
      && fed.state.Some? && PendingHolds(fed.state.value, f, Add(gots, w, i), results)
      && fed.output == (if Complete(f, Add(gots, w, i)) && !Complete(f, gots) then Some(Emitted(f, results)) else None)
  {
    if p.delivered {
      forall v | 0 <= v < |gots|
        ensures |Add(gots, w, i)[v]| >= f.words[v].dataCount
      {
        AddGrows(gots, w, i, v);
      }
    } else {
      OpenStep(c, f, p, gots, results, w, i);
    }
  }

  lemma OpenStep(c: Codec, f: SentFrame, p: Pending, gots: seq<set<nat>>, results: seq<seq<byte>>, w: nat, i: nat)
    requires WellSent(f) && |gots| == |results| == |f.words| && w < |f.words| && i < |f.words[w].shards|
    requires Rebuildable(c, f, results)
    requires PendingHolds(p, f, gots, results) && !p.delivered
    ensures
      var fed := FeedPending(c, p, ScreenedShard(f, w, i));
      && fed.state.Some? && PendingHolds(fed.state.value, f, Add(gots, w, i), results)
      && fed.output == (if Complete(f, Add(gots, w, i)) then Some(Emitted(f, results)) else None)
  {
    var s := ScreenedShard(f, w, i);
    FeedPendingKeepsOk(c, p, s);
    GroupHoldsStep(c, f, w, i, p.groups[w], gots[w], results[w]);
    var step := StepGroup(c, p.groups[w], s);
    var after := p.(groups := p.groups[w := step.group]);
    assert FeedPending(c, p, s) == if step.progressed then Deliver(after) else FeedResult(Some(after), None);
    OtherGroupsHold(f, p.groups, gots, results, w, i, step.group);
    DecodedWhenEnough(f, after.groups, Add(gots, w, i), results);
    if !step.progressed {
      StillShort(f, gots, w, i);
    } else if AllDecoded(after.groups) {
      GatheredResults(after.groups, results);
    }
  }

  lemma OtherGroupsHold(f: SentFrame, groups: seq<Group>, gots: seq<set<nat>>, results: seq<seq<byte>>, w: nat, i: nat,
                        g: Group)
    requires |groups| == |gots| == |results| == |f.words| && w < |groups|
    requires forall v | 0 <= v < |groups| :: GroupHolds(groups[v], f.words[v], gots[v], results[v])
    requires GroupHolds(g, f.words[w], gots[w] + {i}, results[w])
    ensures forall v | 0 <= v < |groups| :: GroupHolds(groups[w := g][v], f.words[v], Add(gots, w, i)[v], results[v])
  {
  }

  /** A shard that makes no progress leaves an incomplete frame incomplete. */
  lemma StillShort(f: SentFrame, gots: seq<set<nat>>, w: nat, i: nat)
    requires |gots| == |f.words| && w < |gots| && !Complete(f, gots)
    requires |gots[w]| >= f.words[w].dataCount || i in gots[w]
    ensures !Complete(f, Add(gots, w, i))
  {
    var short :| 0 <= short < |gots| && |gots[short]| < f.words[short].dataCount;
    if short == w {
      assert gots[w] + {i} == gots[w];
    }
    assert |Add(gots, w, i)[short]| < f.words[short].dataCount;
  }

  lemma DecodedWhenEnough(f: SentFrame, groups: seq<Group>, gots: seq<set<nat>>, results: seq<seq<byte>>)
    requires |groups| == |gots| == |results| == |f.words|
    requires forall v | 0 <= v < |groups| :: f.words[v].dataCount > 0 && GroupHolds(groups[v], f.words[v], gots[v], results[v])
    ensures forall v | 0 <= v < |groups| :: groups[v].decoded.Some? <==> |gots[v]| >= f.words[v].dataCount
    ensures AllDecoded(groups) <==> Complete(f, gots)
    ensures AllDecoded(groups) ==> forall v | 0 <= v < |groups| :: groups[v].decoded == Some(results[v])
  {
    forall v | 0 <= v < |groups|
      ensures groups[v].decoded.Some? <==> |gots[v]| >= f.words[v].dataCount
      ensures groups[v].decoded.Some? ==> groups[v].decoded == Some(results[v])
    {
      assert GroupHolds(groups[v], f.words[v], gots[v], results[v]);
    }
  }

  // ---- whole runs ----

  /** The batches are the frame's packets: batch w, position i carries shard i of code word w. */
  predicate CarriesFrame(batches: seq<seq<seq<byte>>>, f: SentFrame)
    requires WellSent(f)
  {
    && |batches| == |f.words|
    && forall w | 0 <= w < |batches| ::
      && |batches[w]| == |f.words[w].shards|
      && forall i | 0 <= i < |batches[w]| :: Screen(batches[w][i]) == Some(ScreenedShard(f, w, i))
  }

  function AddArrival(gots: seq<set<nat>>, a: Arrival): (g: seq<set<nat>>)
    ensures |g| == |gots|
  {
    if a.Sent? && a.word < |gots| then Add(gots, a.word, a.shard) else gots
  }

  function AddAll(gots: seq<set<nat>>, arrivals: seq<Arrival>): (g: seq<set<nat>>)
    ensures |g| == |gots|
    decreases |arrivals|
  {
    if arrivals == [] then gots else AddAll(AddArrival(gots, arrivals[0]), arrivals[1..])
  }

  lemma {:induction false} AddAllIsGot(gots: seq<set<nat>>, arrivals: seq<Arrival>, w: nat)
    requires w < |gots|
    ensures AddAll(gots, arrivals)[w] == gots[w] + Got(arrivals, w)
    decreases |arrivals|
  {
    if arrivals != [] {
      AddAllIsGot(AddArrival(gots, arrivals[0]), arrivals[1..], w);
      GotStep(arrivals, w);
    }
  }

  lemma GotStep(arrivals: seq<Arrival>, w: nat)
    requires arrivals != []
    ensures
      var a := arrivals[0];
      Got(arrivals, w) == Got(arrivals[1..], w) + if a.Sent? && a.word == w then {a.shard} else {}
  {
    var a := arrivals[0];
    var rest := Got(arrivals[1..], w) + if a.Sent? && a.word == w then {a.shard} else {};
    forall i | i in Got(arrivals, w)
      ensures i in rest
    {
      var k :| 0 <= k < |arrivals| && arrivals[k].Sent? && arrivals[k].word == w && arrivals[k].shard == i;
      if k > 0 {
        assert arrivals[1..][k - 1] == arrivals[k];
      }
    }
    forall i | i in Got(arrivals[1..], w)
      ensures i in Got(arrivals, w)
    {
      var k :| 0 <= k < |arrivals[1..]| && arrivals[1..][k].Sent? && arrivals[1..][k].word == w && arrivals[1..][k].shard == i;
      assert arrivals[k + 1] == arrivals[1..][k];
    }
  }

  lemma {:induction false} AddAllKeepsComplete(f: SentFrame, gots: seq<set<nat>>, arrivals: seq<Arrival>)
    requires |gots| == |f.words| && Complete(f, gots)
    ensures Complete(f, AddAll(gots, arrivals))
    decreases |arrivals|
  {
    if arrivals != [] {
      var next := AddArrival(gots, arrivals[0]);
      forall v | 0 <= v < |gots|
        ensures |next[v]| >= f.words[v].dataCount
      {
        if arrivals[0].Sent? && arrivals[0].word < |gots| {
          AddGrows(gots, arrivals[0].word, arrivals[0].shard, v);
        }
      }
      AddAllKeepsComplete(f, next, arrivals[1..]);
    }
  }

  /** What comes out while the shards that arrived go from `before` to `after`. */
  function Emission(f: SentFrame, results: seq<seq<byte>>, before: seq<set<nat>>, after: seq<set<nat>>): seq<Frame>
    requires |before| == |after| == |f.words|
  {
    if Complete(f, after) && !Complete(f, before) then [Emitted(f, results)] else []
  }

  lemma EmissionSplits(f: SentFrame, results: seq<seq<byte>>, gots: seq<set<nat>>, a: Arrival, rest: seq<Arrival>)
    requires |gots| == |f.words|
    ensures
      var next := AddArrival(gots, a);
      var last := AddAll(next, rest);
      Emission(f, results, gots, next) + Emission(f, results, next, last) == Emission(f, results, gots, last)
  {
    var next := AddArrival(gots, a);
    if Complete(f, next) {
      AddAllKeepsComplete(f, next, rest);
    }
    if Complete(f, gots) {
      AddAllKeepsComplete(f, gots, [a]);
      assert AddAll(gots, [a]) == next;
    }
  }

  lemma NothingGotYet(f: SentFrame, results: seq<seq<byte>>, gots: seq<set<nat>>, a: Arrival)
    requires |gots| == |f.words| && a.Sent? && a.word < |gots|
    ensures AddArrival(gots, a) != NoneGot(|gots|)
  {
    assert a.shard in AddArrival(gots, a)[a.word];
  }

  /** One arrival at a receiver that has exactly the shards in `gots`. */
  lemma ArrivalStep(c: Codec, state: Receiver, start: Receiver, f: SentFrame, batches: seq<seq<seq<byte>>>,
                    gots: seq<set<nat>>, results: seq<seq<byte>>, a: Arrival)
    requires WellSent(f) && |gots| == |results| == |f.words|
    requires Rebuildable(c, f, results) && CarriesFrame(batches, f) && NotHolding(start, f.frameIndex)
    requires StateHolds(state, start, f, gots, results) && Admissible(batches, a)
    ensures
      var fed := FeedOne(c, state, PacketOf(batches, a));
      && StateHolds(fed.state, start, f, AddArrival(gots, a), results)
      && fed.outputs == Emission(f, results, gots, AddArrival(gots, a))
  {
    if a.Sent? {
      var w, i := a.word, a.shard;
      var s := ScreenedShard(f, w, i);
      assert Screen(PacketOf(batches, a)) == Some(s);
      NothingGotYet(f, results, gots, a);
      var p := Current(state, s);
      if gots == NoneGot(|f.words|) {
        NewPendingHolds(f, results, w, i);
      }
      assert PendingHolds(p, f, gots, results);
      PendingHoldsStep(c, f, p, gots, results, w, i);
      assert Feed(c, state, PacketOf(batches, a)) == FeedPending(c, p, s);
    }
  }

  lemma RunStep(c: Codec, state: Receiver, batches: seq<seq<seq<byte>>>, arrivals: seq<Arrival>)
    requires arrivals != [] && FromFrame(batches, arrivals)
    ensures
      var fed := FeedOne(c, state, PacketOf(batches, arrivals[0]));
      var rest := FeedAll(c, fed.state, Packets(batches, arrivals[1..]));
      FeedAll(c, state, Packets(batches, arrivals)) == Outcome(rest.state, fed.outputs + rest.outputs)
  {
    var packets := Packets(batches, arrivals);
    assert packets[0] == PacketOf(batches, arrivals[0]) && packets[1..] == Packets(batches, arrivals[1..]);
  }

  lemma {:induction false} RunHolds(c: Codec, state: Receiver, start: Receiver, f: SentFrame,
                                    batches: seq<seq<seq<byte>>>, arrivals: seq<Arrival>,
                                    gots: seq<set<nat>>, results: seq<seq<byte>>)
    requires WellSent(f) && |gots| == |results| == |f.words|
    requires Rebuildable(c, f, results) && CarriesFrame(batches, f) && NotHolding(start, f.frameIndex)
    requires StateHolds(state, start, f, gots, results) && FromFrame(batches, arrivals)
    ensures
      var run := FeedAll(c, state, Packets(batches, arrivals));
      && StateHolds(run.state, start, f, AddAll(gots, arrivals), results)
      && run.outputs == Emission(f, results, gots, AddAll(gots, arrivals))
    decreases |arrivals|
  {
    if arrivals != [] {
      var a := arrivals[0];
      ArrivalStep(c, state, start, f, batches, gots, results, a);
      var fed := FeedOne(c, state, PacketOf(batches, a));
      RunHolds(c, fed.state, start, f, batches, arrivals[1..], AddArrival(gots, a), results);
      RunStep(c, state, batches, arrivals);
      EmissionSplits(f, results, gots, a, arrivals[1..]);
    }
  }

  /** The distinct shards of each of `n` code words among the arrivals. */
  function AllGot(arrivals: seq<Arrival>, n: nat): (gots: seq<set<nat>>)
    ensures |gots| == n && forall w | 0 <= w < n :: gots[w] == Got(arrivals, w)
  {
    if n == 0 then [] else AllGot(arrivals, n - 1) + [Got(arrivals, n - 1)]
  }

  predicate AnySent(arrivals: seq<Arrival>) {
    exists k :: 0 <= k < |arrivals| && arrivals[k].Sent?
  }

  lemma AddAllIsAllGot(arrivals: seq<Arrival>, n: nat)
    ensures AddAll(NoneGot(n), arrivals) == AllGot(arrivals, n)
  {
    forall w | 0 <= w < n
      ensures AddAll(NoneGot(n), arrivals)[w] == AllGot(arrivals, n)[w]
    {
      AddAllIsGot(NoneGot(n), arrivals, w);
    }
  }

  lemma NoneGotExactly(batches: seq<seq<seq<byte>>>, arrivals: seq<Arrival>)
    requires FromFrame(batches, arrivals)
    ensures AllGot(arrivals, |batches|) == NoneGot(|batches|) <==> !AnySent(arrivals)
  {
    var gots := AllGot(arrivals, |batches|);
    if k :| 0 <= k < |arrivals| && arrivals[k].Sent? {
      assert Admissible(batches, arrivals[k]);
      assert gots[arrivals[k].word] == Got(arrivals, arrivals[k].word);
      assert arrivals[k].shard in Got(arrivals, arrivals[k].word);
    } else {
      forall w | 0 <= w < |batches|
        ensures gots[w] == {}
      {
        assert Got(arrivals, w) == {};
      }
    }
  }

  /**
   * The receiver's half: a receiver not yet on this frame emits it exactly
   * once if every code word gets enough distinct shards, in any order and
   * with any duplicates, and emits nothing otherwise. It then holds exactly
   * the shards that arrived, or is as before if none did.
   */
  lemma ReceiverDelivers(c: Codec, state: Receiver, f: SentFrame, batches: seq<seq<seq<byte>>>,
                         arrivals: seq<Arrival>, results: seq<seq<byte>>)
    requires WellSent(f) && |results| == |f.words|
    requires Rebuildable(c, f, results) && CarriesFrame(batches, f)
    requires NotHolding(state, f.frameIndex) && FromFrame(batches, arrivals)
    ensures
      var run := FeedAll(c, state, Packets(batches, arrivals));
      var enough := forall w | 0 <= w < |f.words| :: |Got(arrivals, w)| >= f.words[w].dataCount;
      && run.outputs == (if enough then [Emitted(f, results)] else [])
      && (if AnySent(arrivals)
          then run.state.Some? && PendingHolds(run.state.value, f, AllGot(arrivals, |f.words|), results)
          else run.state == state)
  {
    RunHolds(c, state, state, f, batches, arrivals, NoneGot(|f.words|), results);
    AddAllIsAllGot(arrivals, |f.words|);
    NoneGotExactly(batches, arrivals);
    CompleteIsEnough(f, arrivals);
  }

  lemma CompleteIsEnough(f: SentFrame, arrivals: seq<Arrival>)
    requires WellSent(f)
    ensures Complete(f, AllGot(arrivals, |f.words|))
      <==> forall w | 0 <= w < |f.words| :: |Got(arrivals, w)| >= f.words[w].dataCount
    ensures !Complete(f, NoneGot(|f.words|))
  {
    assert |NoneGot(|f.words|)[0]| < f.words[0].dataCount;
  }
}
