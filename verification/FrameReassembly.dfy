/**
 * Receiver-side reassembly (pipeline.rs, `FecFrameReassembler`) as a function
 * from packets to state and output. `FrameReassembler` implements it in place.
 */
module FrameReassembly {
  import opened Options
  import opened Bytes
  import opened ErasureCode
  import opened FecEncoding
  import opened VideoPacket

  const SLICE_LEN_PREFIX: nat := FecLayout.SLICE_LEN_PREFIX

  /** The shards of one code word, as received so far. */
  datatype Group = Group(
    shardCount: nat,
    dataShardCount: nat,
    shardLen: nat,
    shards: seq<Option<Shard>>,
    received: nat,
    decoded: Option<seq<byte>>,
    failed: bool)

  const EMPTY_GROUP: Group := Group(0, 0, 0, [], 0, None, false)

  /** The frame being received. `sliceCount` 0 means one group for the whole frame. */
  datatype Pending = Pending(frameIndex: u32, isKeyframe: bool, sliceCount: nat, groups: seq<Group>, delivered: bool)

  datatype Frame = Frame(frameIndex: u32, isKeyframe: bool, data: seq<byte>)

  // ---- one group ----

  /** Whether a shard fits the group and is not there yet. */
  predicate Accepts(g: Group, shardIndex: nat, shardCount: nat, dataCount: nat, payload: Shard)
    requires shardIndex < shardCount && (g.shardCount == 0 || |g.shards| == g.shardCount)
  {
    || g.shardCount == 0
    || (&& g.shardCount == shardCount
        && g.dataShardCount == dataCount
        && g.shardLen == |payload|
        && g.shards[shardIndex].None?)
  }

  function Missing(n: nat): (s: seq<Option<Shard>>)
    ensures |s| == n && forall i | 0 <= i < n :: s[i] == None
  {
    seq(n, _ => None)
  }

  /** The group with an accepted shard stored. */
  function Stored(g: Group, shardIndex: nat, shardCount: nat, dataCount: nat, payload: Shard): Group
    requires shardIndex < shardCount
    requires g.shardCount == 0 || |g.shards| == g.shardCount == shardCount
  {
    var held := if g.shardCount == 0 then Missing(shardCount) else g.shards;
    g.(shardCount := shardCount, dataShardCount := dataCount, shardLen := |payload|,
       shards := held[shardIndex := Some(payload)], received := g.received + 1)
  }

  predicate AllHeld(shards: seq<Option<Shard>>) {
    forall i | 0 <= i < |shards| :: shards[i].Some?
  }

  function Values(shards: seq<Option<Shard>>): (s: seq<Shard>)
    requires AllHeld(shards)
    ensures |s| == |shards| && forall i | 0 <= i < |s| :: s[i] == shards[i].value
  {
    seq(|shards|, i requires 0 <= i < |shards| => shards[i].value)
  }

  /** The data shards: as they came if all are there, reconstructed otherwise. */
  function Rebuild(c: Codec, shards: seq<Option<Shard>>, dataCount: nat): Option<seq<Shard>>
    requires dataCount <= |shards|
  {
    if AllHeld(shards[..dataCount]) then Some(Values(shards[..dataCount]))
    else DecodeWord(c, shards, dataCount)
  }

  /** Strip a slice's length prefix and padding. */
  function StripPrefix(data: seq<byte>): Option<seq<byte>> {
    if |data| < SLICE_LEN_PREFIX then None
    else
      var len := FromLe32(data[0], data[1], data[2], data[3]);
      if len > |data| - SLICE_LEN_PREFIX then None
      else Some(data[SLICE_LEN_PREFIX..SLICE_LEN_PREFIX + len])
  }

  function Payload(shards: seq<Shard>, hasLenPrefix: bool): Option<seq<byte>> {
    if hasLenPrefix then StripPrefix(Flatten(shards)) else Some(Flatten(shards))
  }

  /** A group that has enough shards: decoded, or failed for good. */
  function Finished(c: Codec, g: Group, hasLenPrefix: bool): Group
    requires g.dataShardCount <= |g.shards|
  {
    match Rebuild(c, g.shards, g.dataShardCount)
    case None => g.(failed := true)
    case Some(shards) =>
      match Payload(shards, hasLenPrefix)
      case None => g.(shards := [], failed := true)
      case Some(data) => g.(shards := [], decoded := Some(data))
  }

  /** What one group holds between packets. */
  predicate GroupOk(g: Group) {
    && (g.shardCount == 0 ==> g == EMPTY_GROUP)
    && (g.shardCount > 0 ==>
          && 0 < g.dataShardCount <= g.shardCount <= MAX_FRAME_SHARDS
          && !(g.failed && g.decoded.Some?)
          && if g.failed || g.decoded.Some? then
               g.received == g.dataShardCount && (g.decoded.Some? ==> g.shards == [])
             else
               && |g.shards| == g.shardCount
               && g.received == |HeldIndices(g.shards)| < g.dataShardCount
               && forall i | 0 <= i < |g.shards| && g.shards[i].Some? :: |g.shards[i].value| == g.shardLen > 0)
  }

  // ---- one packet ----

  /** A packet that passed the header checks. */
  datatype Screened = Screened(h: FvpHeader, payload: Shard, sliceCount: nat, sliceIndex: nat)

  predicate ScreenedOk(s: Screened) {
    && s.h.IsValid() && s.payload != []
    && s.sliceCount == SliceCountOf(s.h.flags) && s.sliceIndex == SliceIndexOf(s.h.flags)
    && (s.sliceCount > 0 ==> s.sliceIndex < s.sliceCount)
  }

  /** Malformed packets are dropped before they touch any state. */
  function Screen(packet: seq<byte>): (r: Option<Screened>)
    ensures r.Some? ==> ScreenedOk(r.value)
  {
    match ReadFvpHeader(packet)
    case None => None
    case Some(h) =>
      var payload := packet[PACKET_HEADER_LEN..];
      var s := Screened(h, payload, SliceCountOf(h.flags), SliceIndexOf(h.flags));
      if !h.IsValid() || payload == [] || (s.sliceCount > 0 && s.sliceIndex >= s.sliceCount) then None
      else Some(s)
  }

  function GroupCount(sliceCount: nat): nat {
    if sliceCount == 0 then 1 else sliceCount
  }

  function GroupIndex(s: Screened): (i: nat)
    requires ScreenedOk(s)
    ensures i < GroupCount(s.sliceCount)
  {
    if s.sliceCount == 0 then 0 else s.sliceIndex
  }

  function EmptyGroups(n: nat): (s: seq<Group>)
    ensures |s| == n && forall i | 0 <= i < n :: s[i] == EMPTY_GROUP
  {
    seq(n, _ => EMPTY_GROUP)
  }

  function NewPending(s: Screened): Pending {
    Pending(s.h.frameIndex, IsKeyframe(s.h.flags), s.sliceCount, EmptyGroups(GroupCount(s.sliceCount)), false)
  }

  predicate AllDecoded(groups: seq<Group>) {
    forall i | 0 <= i < |groups| :: groups[i].decoded.Some?
  }

  /** The groups' data in order. */
  function Gathered(groups: seq<Group>): seq<byte> {
    if groups == [] then []
    else (if groups[0].decoded.Some? then groups[0].decoded.value else []) + Gathered(groups[1..])
  }

  function Taken(groups: seq<Group>): (t: seq<Group>)
    ensures |t| == |groups| && forall i | 0 <= i < |t| :: t[i] == groups[i].(decoded := None)
  {
    seq(|groups|, i requires 0 <= i < |groups| => groups[i].(decoded := None))
  }

  predicate PendingOk(f: Pending) {
    && |f.groups| == GroupCount(f.sliceCount)
    && if f.delivered then
         forall i | 0 <= i < |f.groups| ::
           f.groups[i].shards == [] && f.groups[i].decoded.None? && f.groups[i].received == f.groups[i].dataShardCount > 0
       else
         && !AllDecoded(f.groups)
         && forall i | 0 <= i < |f.groups| :: GroupOk(f.groups[i])
  }

  predicate ReceiverOk(state: Option<Pending>) {
    state.Some? ==> PendingOk(state.value)
  }

  /** One group after a packet for it. */
  datatype GroupStep = GroupStep(group: Group, progressed: bool)

  function StepGroup(c: Codec, g: Group, s: Screened): GroupStep
    requires GroupOk(g) && ScreenedOk(s)
  {
    if g.decoded.Some? || g.failed then GroupStep(g, false)
    else if !Accepts(g, s.h.shardIndex, s.h.shardCount, s.h.dataShardCount, s.payload) then GroupStep(g, false)
    else
      var stored := Stored(g, s.h.shardIndex, s.h.shardCount, s.h.dataShardCount, s.payload);
      if stored.received < stored.dataShardCount then GroupStep(stored, true)
      else
        var finished := Finished(c, stored, s.sliceCount > 0);
        GroupStep(finished, !finished.failed)
  }

  datatype FeedResult = FeedResult(state: Option<Pending>, output: Option<Frame>)

  /** Deliver the frame if every group is decoded. */
  function Deliver(f: Pending): FeedResult {
    if AllDecoded(f.groups) then
      FeedResult(Some(f.(groups := Taken(f.groups), delivered := true)),
                 Some(Frame(f.frameIndex, f.isKeyframe, Gathered(f.groups))))
    else FeedResult(Some(f), None)
  }

  function FeedPending(c: Codec, f: Pending, s: Screened): FeedResult
    requires PendingOk(f) && ScreenedOk(s)
  {
    if f.delivered || f.sliceCount != s.sliceCount then FeedResult(Some(f), None)
    else
      var i := GroupIndex(s);
      var step := StepGroup(c, f.groups[i], s);
      var f' := f.(groups := f.groups[i := step.group]);
      if step.progressed then Deliver(f') else FeedResult(Some(f'), None)
  }

  /** The frame a packet belongs to: the one held, or a fresh one that takes its place. */
  function Current(state: Option<Pending>, s: Screened): Pending {
    if state.Some? && state.value.frameIndex == s.h.frameIndex then state.value else NewPending(s)
  }

  function Feed(c: Codec, state: Option<Pending>, packet: seq<byte>): FeedResult
    requires ReceiverOk(state)
  {
    match Screen(packet)
    case None => FeedResult(state, None)
    case Some(s) => NewPendingOk(s); FeedPending(c, Current(state, s), s)
  }

  lemma NewPendingOk(s: Screened)
    ensures PendingOk(NewPending(s))
  {
    assert NewPending(s).groups[0].decoded.None?;
  }

  /**
   * A packet is let in exactly if there is a byte behind its 24 bytes of headers, the counts they have are in
   * bounds (1 to 4096 shards, of which at least one data shard), and the shard and the slice are below theirs.
   */
  lemma ScreenedExactly(p: seq<byte>)
    ensures |p| <= 24 ==> Screen(p) == None
    ensures |p| > 24 ==>
      var index, all := FromLe16(p[16], p[17]), FromLe16(p[18], p[19]);
      var flags, d := FromLe16(p[20], p[21]), FromLe16(p[22], p[23]);
      var slice, slices := flags / 2 % 16, flags / 32 % 16;
      && (Screen(p).Some? <==> index < all <= 4096 && 0 < d <= all && (slices == 0 || slice < slices))
      && (Screen(p).Some? ==>
            Screen(p).value == Screened(FvpHeader(FromLe32(p[12], p[13], p[14], p[15]), index, all, flags, d), p[24..],
                                        slices, slice))
  {
  }

  // ---- the receiver invariant ----

  lemma HeldGrows(shards: seq<Option<Shard>>, i: nat, payload: Shard)
    requires i < |shards| && shards[i].None?
    ensures HeldIndices(shards[i := Some(payload)]) == HeldIndices(shards) + {i}
    ensures |HeldIndices(shards[i := Some(payload)])| == |HeldIndices(shards)| + 1
  {
    assert i !in HeldIndices(shards);
  }

  lemma NoneHeld(n: nat)
    ensures HeldIndices(Missing(n)) == {}
  {
  }

  /** Storing a shard keeps the group's shape; it holds one shard more. */
  lemma StoredShape(g: Group, s: Screened)
    requires GroupOk(g) && ScreenedOk(s) && g.decoded.None? && !g.failed
    requires Accepts(g, s.h.shardIndex, s.h.shardCount, s.h.dataShardCount, s.payload)
    ensures
      var stored := Stored(g, s.h.shardIndex, s.h.shardCount, s.h.dataShardCount, s.payload);
      && |stored.shards| == stored.shardCount
      && stored.received == |HeldIndices(stored.shards)| <= stored.dataShardCount
      && (forall i | 0 <= i < |stored.shards| && stored.shards[i].Some? ::
            |stored.shards[i].value| == stored.shardLen > 0)
  {
    if g.shardCount == 0 {
      NoneHeld(s.h.shardCount);
      HeldGrows(Missing(s.h.shardCount), s.h.shardIndex, s.payload);
    } else {
      HeldGrows(g.shards, s.h.shardIndex, s.payload);
    }
  }

  lemma StepGroupKeepsOk(c: Codec, g: Group, s: Screened)
    requires GroupOk(g) && ScreenedOk(s)
    ensures
      var step := StepGroup(c, g, s);
      && GroupOk(step.group)
      && (step.group.decoded.Some? && g.decoded.None? ==> step.progressed)
  {
    if g.decoded.None? && !g.failed && Accepts(g, s.h.shardIndex, s.h.shardCount, s.h.dataShardCount, s.payload) {
      StoredShape(g, s);
    }
  }

  lemma FeedPendingKeepsOk(c: Codec, f: Pending, s: Screened)
    requires PendingOk(f) && ScreenedOk(s)
    ensures PendingOk(FeedPending(c, f, s).state.value)
  {
    if !f.delivered && f.sliceCount == s.sliceCount {
      var i := GroupIndex(s);
      StepGroupKeepsOk(c, f.groups[i], s);
      var step := StepGroup(c, f.groups[i], s);
      var groups := f.groups[i := step.group];
      assert forall k | 0 <= k < |groups| :: GroupOk(groups[k]);
      if !step.progressed {
        var open :| 0 <= open < |f.groups| && f.groups[open].decoded.None?;
        assert groups[open].decoded.None?;
      }
    }
  }

  /** Every packet, malformed or conflicting, keeps the receiver invariant. */
  lemma FeedKeepsOk(c: Codec, state: Option<Pending>, packet: seq<byte>)
    requires ReceiverOk(state)
    ensures ReceiverOk(Feed(c, state, packet).state)
  {
    var screened := Screen(packet);
    if screened.Some? {
      NewPendingOk(screened.value);
      FeedPendingKeepsOk(c, Current(state, screened.value), screened.value);
    }
  }

  type Receiver = state: Option<Pending> | ReceiverOk(state) witness None
}
