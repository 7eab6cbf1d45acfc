/**
 * What the reassembler guarantees for every packet stream, including
 * malformed, forged and conflicting packets.
 */
module ReceiverSafety {
  import opened Options
  import opened Bytes
  import opened ErasureCode
  import opened FrameReassembly
  import opened VideoDelivery
  import opened Machine

  /** Every packet that passes the header checks names frame `frameIndex`. */
  predicate OneFrameRun(packets: seq<seq<byte>>, frameIndex: u32) {
    forall k | 0 <= k < |packets| :: Screen(packets[k]).Some? ==> Screen(packets[k]).value.h.frameIndex == frameIndex
  }

  predicate DeliveredAlready(state: Receiver, frameIndex: u32) {
    state.Some? && state.value.frameIndex == frameIndex && state.value.delivered
  }

  /** A packet of a run: a delivered frame stays delivered, and emitting delivers it. */
  lemma StepInRun(c: Codec, state: Receiver, packet: seq<byte>, frameIndex: u32)
    requires Screen(packet).Some? ==> Screen(packet).value.h.frameIndex == frameIndex
    ensures
      var fed := FeedOne(c, state, packet);
      && |fed.outputs| <= 1
      && (DeliveredAlready(state, frameIndex) ==> fed == Outcome(state, []))
      && (fed.outputs != [] ==> DeliveredAlready(fed.state, frameIndex) && fed.outputs[0].frameIndex == frameIndex)
  {
    FeedKeepsOk(c, state, packet);
    if Screen(packet).Some? {
      NewPendingOk(Screen(packet).value);
    }
  }

  /** At most one frame comes out of a run of packets with one frame index, and none once it was delivered. */
  lemma {:induction false} AtMostOnePerRun(c: Codec, state: Receiver, packets: seq<seq<byte>>, frameIndex: u32)
    requires OneFrameRun(packets, frameIndex)
    ensures
      var outputs := FeedAll(c, state, packets).outputs;
      && |outputs| <= (if DeliveredAlready(state, frameIndex) then 0 else 1)
      && (forall k | 0 <= k < |outputs| :: outputs[k].frameIndex == frameIndex)
    decreases |packets|
  {
    if packets != [] {
      StepInRun(c, state, packets[0], frameIndex);
      var fed := FeedOne(c, state, packets[0]);
      AtMostOnePerRun(c, fed.state, packets[1..], frameIndex);
      assert FeedAll(c, state, packets).outputs == fed.outputs + FeedAll(c, fed.state, packets[1..]).outputs;
    }
  }

  // ---- nothing comes out while a code word is short ----

  // What the receiver goes by is fixed by the first packets of a run, whoever sent them: the slice count
  // by the first that passes the header checks, a group's counts and shard length by its first under
  // that slice count.

  /** The slice count of the first packet that passes the header checks. */
  function FirstSlices(packets: seq<seq<byte>>): Option<nat> {
    if packets == [] then None
    else
      var before, last := FirstSlices(packets[..|packets| - 1]), Screen(packets[|packets| - 1]);
      if before.Some? then before else if last.Some? then Some(last.value.sliceCount) else None
  }

  /** A packet for one group of a frame cut into `sliceCount` slices. */
  predicate InGroup(s: Option<Screened>, sliceCount: nat, group: nat) {
    s.Some? && ScreenedOk(s.value) && s.value.sliceCount == sliceCount && GroupIndex(s.value) == group
  }

  /** The first packet for a group. */
  function FirstOf(packets: seq<seq<byte>>, sliceCount: nat, group: nat): (first: Option<Screened>)
    ensures first.Some? ==> ScreenedOk(first.value)
  {
    if packets == [] then None
    else
      var before, last := FirstOf(packets[..|packets| - 1], sliceCount, group), Screen(packets[|packets| - 1]);
      if before.Some? then before else if InGroup(last, sliceCount, group) then last else None
  }

  /** Same counts and same shard length. */
  predicate Fits(s: Screened, first: Screened) {
    && s.h.shardCount == first.h.shardCount && s.h.dataShardCount == first.h.dataShardCount
    && |s.payload| == |first.payload|
  }

  /** The distinct shard indices of the packets for a group that fit its first one. */
  function Fitting(packets: seq<seq<byte>>, sliceCount: nat, group: nat, first: Screened): set<nat> {
    if packets == [] then {}
    else
      var before, last := Fitting(packets[..|packets| - 1], sliceCount, group, first), Screen(packets[|packets| - 1]);
      if InGroup(last, sliceCount, group) && Fits(last.value, first) then before + {last.value.h.shardIndex} else before
  }

  /**
   * A group holds exactly the shards that fit its first packet, as long as they are fewer than its data
   * shards, and is done with as soon as they are not.
   */
  predicate Backed(g: Group, first: Option<Screened>, fitting: set<nat>) {
    if first.None? then g == EMPTY_GROUP
    else
      && g.shardCount == first.value.h.shardCount && g.dataShardCount == first.value.h.dataShardCount
      && g.shardLen == |first.value.payload|
      && if g.failed || g.decoded.Some? then |fitting| >= g.dataShardCount else HeldIndices(g.shards) == fitting
  }

  ghost predicate GroupBacked(g: Group, packets: seq<seq<byte>>, sliceCount: nat, group: nat) {
    var first := FirstOf(packets, sliceCount, group);
    Backed(g, first, if first.Some? then Fitting(packets, sliceCount, group, first.value) else {})
  }

  ghost predicate AllBacked(p: Pending, packets: seq<seq<byte>>) {
    forall i: nat | i < |p.groups| :: GroupBacked(p.groups[i], packets, p.sliceCount, i)
  }

  lemma FirstSlicesSnoc(packets: seq<seq<byte>>, packet: seq<byte>)
    ensures
      FirstSlices(packets + [packet])
      == if FirstSlices(packets).Some? then FirstSlices(packets)
         else if Screen(packet).Some? then Some(Screen(packet).value.sliceCount) else None
  {
    assert (packets + [packet])[..|packets|] == packets;
  }

  lemma FirstOfSnoc(packets: seq<seq<byte>>, packet: seq<byte>, sliceCount: nat, group: nat)
    ensures
      FirstOf(packets + [packet], sliceCount, group)
      == if FirstOf(packets, sliceCount, group).Some? then FirstOf(packets, sliceCount, group)
         else if InGroup(Screen(packet), sliceCount, group) then Screen(packet) else None
  {
    assert (packets + [packet])[..|packets|] == packets;
  }

  lemma FittingSnoc(packets: seq<seq<byte>>, packet: seq<byte>, sliceCount: nat, group: nat, first: Screened)
    ensures
      var before := Fitting(packets, sliceCount, group, first);
      Fitting(packets + [packet], sliceCount, group, first)
      == if InGroup(Screen(packet), sliceCount, group) && Fits(Screen(packet).value, first)
         then before + {Screen(packet).value.h.shardIndex} else before
  {
    assert (packets + [packet])[..|packets|] == packets;
  }

  /** A group without a first packet has no shards. */
  lemma {:induction false} NoFirstNoFitting(packets: seq<seq<byte>>, sliceCount: nat, group: nat, first: Screened)
    requires FirstOf(packets, sliceCount, group).None?
    ensures Fitting(packets, sliceCount, group, first) == {}
  {
    if packets != [] {
      NoFirstNoFitting(packets[..|packets| - 1], sliceCount, group, first);
    }
  }

  /** Before any packet passes the header checks there is no first packet for any group. */
  lemma {:induction false} NothingFirst(packets: seq<seq<byte>>, sliceCount: nat, group: nat)
    requires FirstSlices(packets).None?
    ensures FirstOf(packets, sliceCount, group).None?
  {
    if packets != [] {
      NothingFirst(packets[..|packets| - 1], sliceCount, group);
    }
  }

  /** A group's first packet. */
  lemma FirstBacked(c: Codec, s: Screened)
    requires ScreenedOk(s)
    ensures Backed(StepGroup(c, EMPTY_GROUP, s).group, Some(s), {s.h.shardIndex as nat})
  {
    StoredShape(EMPTY_GROUP, s);
    NoneHeld(s.h.shardCount);
    HeldGrows(Missing(s.h.shardCount), s.h.shardIndex, s.payload);
  }

  lemma CardinalityAtMost(a: set<nat>, i: nat)
    ensures |a| <= |a + {i}|
  {
    assert i in a ==> a + {i} == a;
  }

  /** A later packet for a group: stored exactly if it fits and is new. */
  lemma LaterBacked(c: Codec, g: Group, s: Screened, first: Screened, fitting: set<nat>)
    requires GroupOk(g) && ScreenedOk(s) && ScreenedOk(first) && Backed(g, Some(first), fitting)
    ensures
      Backed(StepGroup(c, g, s).group, Some(first), if Fits(s, first) then fitting + {s.h.shardIndex as nat} else fitting)
  {
    CardinalityAtMost(fitting, s.h.shardIndex);
    if g.decoded.None? && !g.failed && Accepts(g, s.h.shardIndex, s.h.shardCount, s.h.dataShardCount, s.payload) {
      StoredShape(g, s);
      HeldGrows(g.shards, s.h.shardIndex, s.payload);
    } else if g.decoded.None? && !g.failed && Fits(s, first) {
      assert s.h.shardIndex as nat in HeldIndices(g.shards);
      assert fitting + {s.h.shardIndex as nat} == fitting;
    }
  }

  /** A packet for the group, seen against all packets so far. */
  lemma StepBacked(c: Codec, g: Group, packets: seq<seq<byte>>, packet: seq<byte>, sliceCount: nat, group: nat)
    requires GroupOk(g) && GroupBacked(g, packets, sliceCount, group) && InGroup(Screen(packet), sliceCount, group)
    ensures GroupBacked(StepGroup(c, g, Screen(packet).value).group, packets + [packet], sliceCount, group)
  {
    var s, first := Screen(packet).value, FirstOf(packets, sliceCount, group);
    FirstOfSnoc(packets, packet, sliceCount, group);
    if first.None? {
      NoFirstNoFitting(packets, sliceCount, group, s);
      FittingSnoc(packets, packet, sliceCount, group, s);
      FirstBacked(c, s);
      assert {} + {s.h.shardIndex as nat} == {s.h.shardIndex as nat};
    } else {
      FittingSnoc(packets, packet, sliceCount, group, first.value);
      LaterBacked(c, g, s, first.value, Fitting(packets, sliceCount, group, first.value));
    }
  }

  /** A packet for no group of the frame, or another one. */
  lemma OtherBacked(g: Group, packets: seq<seq<byte>>, packet: seq<byte>, sliceCount: nat, group: nat)
    requires GroupBacked(g, packets, sliceCount, group) && !InGroup(Screen(packet), sliceCount, group)
    ensures GroupBacked(g, packets + [packet], sliceCount, group)
  {
    var first := FirstOf(packets, sliceCount, group);
    FirstOfSnoc(packets, packet, sliceCount, group);
    if first.Some? {
      FittingSnoc(packets, packet, sliceCount, group, first.value);
    }
  }

  /** The frame with one more packet in its group. */
  function WithPacket(c: Codec, p: Pending, s: Screened): Pending
    requires PendingOk(p) && !p.delivered && p.sliceCount == s.sliceCount && ScreenedOk(s)
  {
    var i := GroupIndex(s);
    p.(groups := p.groups[i := StepGroup(c, p.groups[i], s).group])
  }

  lemma PacketBacked(c: Codec, p: Pending, packets: seq<seq<byte>>, packet: seq<byte>)
    requires PendingOk(p) && !p.delivered && AllBacked(p, packets)
    requires Screen(packet).Some? && Screen(packet).value.sliceCount == p.sliceCount
    ensures AllBacked(WithPacket(c, p, Screen(packet).value), packets + [packet])
  {
    var s := Screen(packet).value;
    var after := WithPacket(c, p, s);
    forall i: nat | i < |after.groups|
      ensures GroupBacked(after.groups[i], packets + [packet], p.sliceCount, i)
    {
      assert GroupBacked(p.groups[i], packets, p.sliceCount, i);
      if i == GroupIndex(s) {
        StepBacked(c, p.groups[i], packets, packet, p.sliceCount, i);
      } else {
        OtherBacked(p.groups[i], packets, packet, p.sliceCount, i);
      }
    }
  }

  lemma MoreBacked(p: Pending, packets: seq<seq<byte>>, packet: seq<byte>)
    requires AllBacked(p, packets) && (Screen(packet).Some? ==> Screen(packet).value.sliceCount != p.sliceCount)
    ensures AllBacked(p, packets + [packet])
  {
    forall i: nat | i < |p.groups|
      ensures GroupBacked(p.groups[i], packets + [packet], p.sliceCount, i)
    {
      OtherBacked(p.groups[i], packets, packet, p.sliceCount, i);
    }
  }

  lemma NewBacked(s: Screened, packets: seq<seq<byte>>)
    requires FirstSlices(packets).None?
    ensures AllBacked(NewPending(s), packets)
  {
    var p := NewPending(s);
    forall i: nat | i < |p.groups|
      ensures GroupBacked(p.groups[i], packets, p.sliceCount, i)
    {
      NothingFirst(packets, p.sliceCount, i);
    }
  }

  /**
   * After the packets of a run: the state from before it if none passed the header checks, else the run's
   * frame under the first slice count, holding exactly the fitting shards until it is delivered.
   */
  ghost predicate StateBacked(state: Receiver, start: Receiver, packets: seq<seq<byte>>, frameIndex: u32) {
    var slices := FirstSlices(packets);
    if slices.None? then state == start
    else
      && state.Some? && state.value.frameIndex == frameIndex && state.value.sliceCount == slices.value
      && (!state.value.delivered ==> AllBacked(state.value, packets))
  }

  /** Every code word of the frame got as many distinct fitting shards as its first packet names data shards. */
  ghost predicate EnoughArrived(packets: seq<seq<byte>>) {
    FirstSlices(packets).Some? &&
    forall i: nat | i < GroupCount(FirstSlices(packets).value) :: WordHasEnough(packets, FirstSlices(packets).value, i)
  }

  ghost predicate WordHasEnough(packets: seq<seq<byte>>, sliceCount: nat, group: nat) {
    var first := FirstOf(packets, sliceCount, group);
    first.Some? && |Fitting(packets, sliceCount, group, first.value)| >= first.value.h.dataShardCount > 0
  }

  lemma DecodedHaveEnough(p: Pending, packets: seq<seq<byte>>)
    requires AllDecoded(p.groups) && |p.groups| == GroupCount(p.sliceCount)
    requires AllBacked(p, packets) && FirstSlices(packets) == Some(p.sliceCount)
    ensures EnoughArrived(packets)
  {
    forall i: nat | i < GroupCount(p.sliceCount)
      ensures WordHasEnough(packets, p.sliceCount, i)
    {
      assert GroupBacked(p.groups[i], packets, p.sliceCount, i) && p.groups[i].decoded.Some?;
    }
  }

  /** A packet that passes the header checks, at the frame it belongs to. */
  lemma ScreenedKeepsBacked(c: Codec, p: Pending, packets: seq<seq<byte>>, packet: seq<byte>)
    requires PendingOk(p) && Screen(packet).Some? && Screen(packet).value.h.frameIndex == p.frameIndex
    requires !p.delivered ==> AllBacked(p, packets)
    requires FirstSlices(packets + [packet]) == Some(p.sliceCount)
    ensures
      var fed := FeedPending(c, p, Screen(packet).value);
      && fed.state.value.frameIndex == p.frameIndex && fed.state.value.sliceCount == p.sliceCount
      && (!fed.state.value.delivered ==> AllBacked(fed.state.value, packets + [packet]))
      && (fed.output.Some? ==> EnoughArrived(packets + [packet]))
  {
    var s := Screen(packet).value;
    if !p.delivered {
      if p.sliceCount == s.sliceCount {
        PacketBacked(c, p, packets, packet);
        var after := WithPacket(c, p, s);
        if AllDecoded(after.groups) {
          DecodedHaveEnough(after, packets + [packet]);
        }
      } else {
        MoreBacked(p, packets, packet);
      }
    }
  }

  lemma StepKeepsBacked(c: Codec, state: Receiver, start: Receiver, packets: seq<seq<byte>>, packet: seq<byte>,
                        frameIndex: u32)
    requires Screen(packet).Some? ==> Screen(packet).value.h.frameIndex == frameIndex
    requires NotHolding(start, frameIndex) && StateBacked(state, start, packets, frameIndex)
    ensures StateBacked(FeedOne(c, state, packet).state, start, packets + [packet], frameIndex)
    ensures FeedOne(c, state, packet).outputs != [] ==> EnoughArrived(packets + [packet])
  {
    FeedKeepsOk(c, state, packet);
    FirstSlicesSnoc(packets, packet);
    if Screen(packet).Some? {
      var s := Screen(packet).value;
      NewPendingOk(s);
      if FirstSlices(packets).None? {
        NewBacked(s, packets);
      }
      ScreenedKeepsBacked(c, Current(state, s), packets, packet);
    } else if state.Some? && FirstSlices(packets).Some? && !state.value.delivered {
      MoreBacked(state.value, packets, packet);
    }
  }

  /** Over every run of packets with one frame index, malformed and conflicting ones too, the state is what its packets say. */
  lemma {:induction false} RunBacked(c: Codec, start: Receiver, packets: seq<seq<byte>>, frameIndex: u32)
    requires OneFrameRun(packets, frameIndex) && NotHolding(start, frameIndex)
    ensures StateBacked(FeedAll(c, start, packets).state, start, packets, frameIndex)
    decreases |packets|
  {
    if packets != [] {
      var before, last := packets[..|packets| - 1], packets[|packets| - 1];
      assert packets == before + [last];
      RunBacked(c, start, before, frameIndex);
      RunConcat(ReceiverStep(c), start, before, [last]);
      RunOne(c, FeedAll(c, start, before).state, last);
      StepKeepsBacked(c, FeedAll(c, start, before).state, start, before, last, frameIndex);
    }
  }

  lemma RunOne(c: Codec, state: Receiver, packet: seq<byte>)
    ensures FeedAll(c, state, [packet]) == FeedOne(c, state, packet)
  {
    var fed := FeedOne(c, state, packet);
    assert [packet][1..] == [];
    assert Run(ReceiverStep(c), fed.state, []) == Outcome(fed.state, []);
    assert fed.outputs + [] == fed.outputs;
  }

  /**
   * Nothing comes out while some code word is short: when a packet of a run makes the receiver emit, every
   * group under the run's first slice count got, in this run, at least as many distinct shards as its first
   * packet names data shards, all with that packet's counts and shard length.
   */
  lemma EmitsOnlyWithEnough(c: Codec, start: Receiver, packets: seq<seq<byte>>, packet: seq<byte>, frameIndex: u32)
    requires OneFrameRun(packets + [packet], frameIndex) && NotHolding(start, frameIndex)
    requires FeedOne(c, FeedAll(c, start, packets).state, packet).outputs != []
    ensures EnoughArrived(packets + [packet])
  {
    var all := packets + [packet];
    assert all[|packets|] == packet;
    assert OneFrameRun(packets, frameIndex) by {
      assert forall k | 0 <= k < |packets| :: packets[k] == all[k];
    }
    RunBacked(c, start, packets, frameIndex);
    StepKeepsBacked(c, FeedAll(c, start, packets).state, start, packets, packet, frameIndex);
  }

  // ---- a broken code word ----

  predicate HasFailed(state: Receiver, frameIndex: u32, group: nat) {
    && state.Some? && state.value.frameIndex == frameIndex && !state.value.delivered
    && group < |state.value.groups| && state.value.groups[group].failed && state.value.groups[group].decoded.None?
  }

  /** The group with the packet's shard in it. */
  function WithShard(g: Group, s: Screened): Group
    requires GroupOk(g) && ScreenedOk(s) && g.decoded.None? && !g.failed
    requires Accepts(g, s.h.shardIndex, s.h.shardCount, s.h.dataShardCount, s.payload)
  {
    Stored(g, s.h.shardIndex, s.h.shardCount, s.h.dataShardCount, s.payload)
  }

  /** What the shard that completes a group's data shards makes of it: the data, or of a slice what its length says. */
  lemma DataShardsDecide(c: Codec, g: Group, s: Screened)
    requires GroupOk(g) && ScreenedOk(s) && g.decoded.None? && !g.failed
    requires Accepts(g, s.h.shardIndex, s.h.shardCount, s.h.dataShardCount, s.payload)
    requires AllHeld(WithShard(g, s).shards[..s.h.dataShardCount]) && g.received + 1 == s.h.dataShardCount
    ensures
      var data := Flatten(Values(WithShard(g, s).shards[..s.h.dataShardCount]));
      var after := StepGroup(c, g, s).group;
      if s.sliceCount == 0 then after.decoded == Some(data)
      else if |data| >= 4 && 4 + FromLe32(data[0], data[1], data[2], data[3]) <= |data| then
        after.decoded == Some(data[4..4 + FromLe32(data[0], data[1], data[2], data[3])])
      else after.failed && after.decoded == None
  {
    StoredShape(g, s);
  }

  lemma StaysFailed(c: Codec, state: Receiver, packet: seq<byte>, frameIndex: u32, group: nat)
    requires HasFailed(state, frameIndex, group)
    requires Screen(packet).Some? ==> Screen(packet).value.h.frameIndex == frameIndex
    ensures FeedOne(c, state, packet).outputs == [] && HasFailed(FeedOne(c, state, packet).state, frameIndex, group)
  {
    FeedKeepsOk(c, state, packet);
    var screened, p := Screen(packet), state.value;
    if screened.Some? && screened.value.sliceCount == p.sliceCount {
      var after := WithPacket(c, p, screened.value);
      assert after.groups[group] == p.groups[group];
      assert !AllDecoded(after.groups);
    }
  }

  /** A frame with a code word that could not be decoded does not come out, whatever else arrives for it. */
  lemma {:induction false} FailedNeverDelivers(c: Codec, state: Receiver, packets: seq<seq<byte>>, frameIndex: u32,
                                               group: nat)
    requires HasFailed(state, frameIndex, group) && OneFrameRun(packets, frameIndex)
    ensures FeedAll(c, state, packets).outputs == [] && HasFailed(FeedAll(c, state, packets).state, frameIndex, group)
    decreases |packets|
  {
    if packets != [] {
      StaysFailed(c, state, packets[0], frameIndex, group);
      FailedNeverDelivers(c, FeedOne(c, state, packets[0]).state, packets[1..], frameIndex, group);
    }
  }
}
