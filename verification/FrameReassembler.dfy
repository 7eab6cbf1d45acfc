/** The reassembler with its state updated in place, as in pipeline.rs. */
module FrameReassembler {
  import opened Options
  import opened Bytes
  import opened ErasureCode
  import opened VideoPacket
  import opened FrameReassembly

  /** The shards of one code word that arrived so far, and what they decoded to. */
  class ShardGroup {
    var shardCount: nat
    var dataShardCount: nat
    var shardLen: nat
    var shards: seq<Option<Shard>>
    var received: nat
    var decoded: Option<seq<byte>>
    var failed: bool

    ghost function Value(): Group
      reads this
    {
      Group(shardCount, dataShardCount, shardLen, shards, received, decoded, failed)
    }

    constructor ()
      ensures Value() == EMPTY_GROUP
    {
      shardCount, dataShardCount, shardLen, received := 0, 0, 0, 0;
      shards, decoded, failed := [], None, false;
    }

    /** Store one shard; false for one that does not fit the group. */
    method Accept(shardIndex: nat, count: nat, dataCount: nat, payload: Shard) returns (ok: bool)
      requires shardIndex < count && (shardCount == 0 || |shards| == shardCount)
      modifies this
      ensures ok == Accepts(old(Value()), shardIndex, count, dataCount, payload)
      ensures Value() == if ok then Stored(old(Value()), shardIndex, count, dataCount, payload) else old(Value())
    {
      if shardCount == 0 {
        shardCount := count;
        dataShardCount := dataCount;
        shardLen := |payload|;
        shards := Missing(count);
      } else if shardCount != count || dataShardCount != dataCount || shardLen != |payload| {
        return false;
      }
      if shards[shardIndex].Some? {
        return false;
      }
      shards := shards[shardIndex := Some(payload)];
      received := received + 1;
      return true;
    }

    /** Rebuild the data once enough shards are present; None if that fails. */
    method Reconstruct(c: Codec, hasLenPrefix: bool) returns (data: Option<seq<byte>>)
      requires dataShardCount <= |shards| && decoded.None? && !failed
      modifies this`shards
      ensures
        var finished := Finished(c, old(Value()), hasLenPrefix);
        && data == finished.decoded
        && (data.None? <==> finished.failed)
        && Value() == finished.(decoded := None, failed := false)
    {
      var d := dataShardCount;
      var rebuilt := Rebuild(c, shards, d);
      if rebuilt.None? {
        return None;
      }
      shards := [];
      var all := Flatten(rebuilt.value);
      if hasLenPrefix {
        if |all| < SLICE_LEN_PREFIX {
          return None;
        }
        var len := FromLe32(all[0], all[1], all[2], all[3]);
        if len > |all| - SLICE_LEN_PREFIX {
          return None;
        }
        all := all[..SLICE_LEN_PREFIX + len];
        all := all[SLICE_LEN_PREFIX..];
      }
      return Some(all);
    }
  }

  ghost function GroupValues(groups: seq<ShardGroup>): (v: seq<Group>)
    reads groups
    ensures |v| == |groups| && forall i | 0 <= i < |v| :: v[i] == groups[i].Value()
  {
    seq(|groups|, i requires 0 <= i < |groups| reads groups => groups[i].Value())
  }

  ghost predicate Distinct(groups: seq<ShardGroup>) {
    forall i, j | 0 <= i < j < |groups| :: groups[i] != groups[j]
  }

  lemma GatheredStep(groups: seq<Group>, i: nat, data: seq<byte>)
    requires i < |groups|
    ensures
      var next := if groups[i].decoded.Some? then data + groups[i].decoded.value else data;
      data + Gathered(groups[i..]) == next + Gathered(groups[i + 1..])
  {
    var x := if groups[i].decoded.Some? then groups[i].decoded.value else [];
    assert groups[i..][0] == groups[i] && groups[i..][1..] == groups[i + 1..];
    assert data + (x + Gathered(groups[i + 1..])) == data + x + Gathered(groups[i + 1..]);
    assert data + [] == data;
  }

  class PendingFrame {
    const frameIndex: u32
    const isKeyframe: bool
    const sliceCount: nat
    const groups: seq<ShardGroup>
    var delivered: bool

    ghost function Value(): Pending
      reads this, groups
    {
      Pending(frameIndex, isKeyframe, sliceCount, GroupValues(groups), delivered)
    }

    constructor (s: Screened)
      ensures Value() == NewPending(s) && Distinct(groups) && fresh(groups)
    {
      frameIndex := s.h.frameIndex;
      isKeyframe := IsKeyframe(s.h.flags);
      sliceCount := s.sliceCount;
      var n := GroupCount(s.sliceCount);
      var gs: seq<ShardGroup> := [];
      for i := 0 to n
        invariant |gs| == i && Distinct(gs) && fresh(gs)
        invariant forall k | 0 <= k < i :: gs[k].Value() == EMPTY_GROUP
      {
        var g := new ShardGroup();
        gs := gs + [g];
      }
      groups := gs;
      delivered := false;
    }

    /** Take every group's data, in order. */
    method TakeAll() returns (data: seq<byte>)
      requires Distinct(groups)
      modifies groups
      ensures data == Gathered(old(GroupValues(groups)))
      ensures GroupValues(groups) == Taken(old(GroupValues(groups)))
    {
      ghost var before := GroupValues(groups);
      data := [];
      for i := 0 to |groups|
        invariant data + Gathered(before[i..]) == Gathered(before)
        invariant forall k | 0 <= k < i :: groups[k].Value() == before[k].(decoded := None)
        invariant forall k | i <= k < |groups| :: groups[k].Value() == before[k]
      {
        GatheredStep(before, i, data);
        if groups[i].decoded.Some? {
          data := data + groups[i].decoded.value;
          groups[i].decoded := None;
        }
      }
    }

    /** Put a shard into its group; the frame if that completes it. */
    method AddShard(c: Codec, s: Screened) returns (output: Option<Frame>)
      requires Distinct(groups) && PendingOk(Value()) && ScreenedOk(s)
      modifies this`delivered, groups
      ensures FeedResult(Some(Value()), output) == FeedPending(c, old(Value()), s)
    {
      if delivered || sliceCount != s.sliceCount {
        return None;
      }
      var i := GroupIndex(s);
      ghost var before := Value();
      ghost var step := StepGroup(c, before.groups[i], s);
      ghost var after := before.(groups := before.groups[i := step.group]);
      assert FeedPending(c, before, s) == if step.progressed then Deliver(after) else FeedResult(Some(after), None);
      var progressed := AddToGroup(groups[i], c, s);
      assert Value() == after by {
        assert GroupValues(groups) == after.groups;
      }
      if !progressed {
        return None;
      }
      output := DeliverIfComplete();
    }

    /** Hand the frame over once every group is decoded. */
    method DeliverIfComplete() returns (output: Option<Frame>)
      requires Distinct(groups)
      modifies this`delivered, groups
      ensures FeedResult(Some(Value()), output) == Deliver(old(Value()))
    {
      if forall k | 0 <= k < |groups| :: groups[k].decoded.Some? {
        delivered := true;
        var data := TakeAll();
        return Some(Frame(frameIndex, isKeyframe, data));
      }
      ghost var open :| 0 <= open < |groups| && groups[open].decoded.None?;
      assert GroupValues(groups)[open].decoded.None?;
      return None;
    }
  }

  /** The part of `feed` that works on one group. */
  method AddToGroup(group: ShardGroup, c: Codec, s: Screened) returns (progressed: bool)
    requires GroupOk(group.Value()) && ScreenedOk(s)
    modifies group
    ensures GroupStep(group.Value(), progressed) == StepGroup(c, old(group.Value()), s)
  {
    if group.decoded.Some? || group.failed {
      return false;
    }
    StoredFits(group.Value(), s);
    var ok := group.Accept(s.h.shardIndex, s.h.shardCount, s.h.dataShardCount, s.payload);
    if !ok {
      return false;
    }
    if group.received >= group.dataShardCount {
      var data := group.Reconstruct(c, s.sliceCount > 0);
      if data.None? {
        group.failed := true;
        return false;
      }
      group.decoded := data;
    }
    return true;
  }

  lemma StoredFits(g: Group, s: Screened)
    requires GroupOk(g) && ScreenedOk(s) && g.decoded.None? && !g.failed
    ensures Accepts(g, s.h.shardIndex, s.h.shardCount, s.h.dataShardCount, s.payload) ==>
      var stored := Stored(g, s.h.shardIndex, s.h.shardCount, s.h.dataShardCount, s.payload);
      stored.dataShardCount <= |stored.shards|
  {
  }

  class Reassembler {
    const codec: Codec
    var frame: PendingFrame?

    ghost predicate Valid()
      reads this, frame, if frame == null then [] else frame.groups
    {
      && (frame != null ==> Distinct(frame.groups))
      && ReceiverOk(State())
    }

    ghost function State(): Option<Pending>
      reads this, frame, if frame == null then [] else frame.groups
    {
      if frame == null then None else Some(frame.Value())
    }

    constructor (codec: Codec)
      ensures Valid() && State() == None && this.codec == codec
    {
      this.codec := codec;
      frame := null;
    }

    /** One received packet; a frame comes out when it was the last one needed. */
    method Feed(packet: seq<byte>) returns (output: Option<Frame>)
      requires Valid()
      modifies this, frame, if frame == null then [] else frame.groups
      ensures Valid()
      ensures frame == old(frame) || (frame != null && fresh(frame) && fresh(frame.groups))
      ensures FeedResult(State(), output) == FrameReassembly.Feed(codec, old(State()), packet)
    {
      ghost var before := State();
      FeedKeepsOk(codec, before, packet);
      var screened := Screen(packet);
      if screened.None? {
        return None;
      }
      var s := screened.value;
      if frame == null || frame.frameIndex != s.h.frameIndex {
        frame := new PendingFrame(s);
      }
      NewPendingOk(s);
      assert frame.Value() == Current(before, s);
      output := frame.AddShard(codec, s);
      assert FeedResult(State(), output) == FrameReassembly.Feed(codec, before, packet);
    }
  }
}
