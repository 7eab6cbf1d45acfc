/** Delivery when packets of different frames arrive in any order. */
module StreamDelivery {
  import opened Options
  import opened Bytes
  import opened ErasureCode
  import opened FrameReassembly
  import opened VideoDelivery
  import opened FrameDelivery

  // ---- a stream and its stretches ----

  /** The packets of a frame, by code word. */
  type Batches = seq<seq<seq<byte>>>

  /** A packet of frame number `frame` of those sent; junk belongs to none, whatever its number. */
  datatype Tagged = Tagged(frame: nat, arrival: Arrival)

  /** Packets of one frame (and junk) that arrived one after the other. */
  datatype Stretch = Stretch(frame: nat, arrivals: seq<Arrival>)

  predicate OfFrames(sent: seq<Batches>, stream: seq<Tagged>) {
    forall k | 0 <= k < |stream| ::
      stream[k].frame < |sent| && Admissible(sent[stream[k].frame], stream[k].arrival)
  }

  function StreamPackets(sent: seq<Batches>, stream: seq<Tagged>): seq<seq<byte>>
    requires OfFrames(sent, stream)
  {
    if stream == [] then []
    else [PacketOf(sent[stream[0].frame], stream[0].arrival)] + StreamPackets(sent, stream[1..])
  }

  /** One more packet in front of the stretches. */
  function Front(tag: Tagged, rest: seq<Stretch>): seq<Stretch> {
    if rest == [] then [Stretch(tag.frame, [tag.arrival])]
    else if tag.arrival.Junk? then [Stretch(rest[0].frame, [tag.arrival] + rest[0].arrivals)] + rest[1..]
    else if tag.frame == rest[0].frame || !AnySent(rest[0].arrivals) then
      [Stretch(tag.frame, [tag.arrival] + rest[0].arrivals)] + rest[1..]
    else [Stretch(tag.frame, [tag.arrival])] + rest
  }

  function Stretches(stream: seq<Tagged>): seq<Stretch> {
    if stream == [] then [] else Front(stream[0], Stretches(stream[1..]))
  }

  predicate Fit(sent: seq<Batches>, ss: seq<Stretch>) {
    ss == [] || (ss[0].frame < |sent| && FromFrame(sent[ss[0].frame], ss[0].arrivals) && Fit(sent, ss[1..]))
  }

  function StretchPackets(sent: seq<Batches>, ss: seq<Stretch>): seq<seq<byte>>
    requires Fit(sent, ss)
  {
    if ss == [] then [] else Packets(sent[ss[0].frame], ss[0].arrivals) + StretchPackets(sent, ss[1..])
  }

  /** Neighbours are of different frames, and each with one after it has a packet of its frame. */
  predicate Turns(ss: seq<Stretch>) {
    |ss| <= 1 || (AnySent(ss[0].arrivals) && ss[0].frame != ss[1].frame && Turns(ss[1..]))
  }

  /** A packet with the frame it belongs to, if to any. */
  function Owned(frame: nat, a: Arrival): (Option<nat>, Arrival) {
    (if a.Sent? then Some(frame) else None, a)
  }

  function OwnedAll(frame: nat, arrivals: seq<Arrival>): seq<(Option<nat>, Arrival)> {
    if arrivals == [] then [] else [Owned(frame, arrivals[0])] + OwnedAll(frame, arrivals[1..])
  }

  function StreamOwned(stream: seq<Tagged>): seq<(Option<nat>, Arrival)> {
    if stream == [] then [] else [Owned(stream[0].frame, stream[0].arrival)] + StreamOwned(stream[1..])
  }

  function StretchesOwned(ss: seq<Stretch>): seq<(Option<nat>, Arrival)> {
    if ss == [] then [] else OwnedAll(ss[0].frame, ss[0].arrivals) + StretchesOwned(ss[1..])
  }

  lemma AnySentCons(a: Arrival, arrivals: seq<Arrival>)
    ensures AnySent([a] + arrivals) <==> a.Sent? || AnySent(arrivals)
  {
    var all := [a] + arrivals;
    if a.Sent? {
      assert all[0].Sent?;
    }
    if k :| 0 <= k < |arrivals| && arrivals[k].Sent? {
      assert all[k + 1].Sent?;
    }
  }

  lemma PacketsCons(batches: Batches, a: Arrival, arrivals: seq<Arrival>)
    requires Admissible(batches, a) && FromFrame(batches, arrivals)
    ensures FromFrame(batches, [a] + arrivals)
    ensures Packets(batches, [a] + arrivals) == [PacketOf(batches, a)] + Packets(batches, arrivals)
  {
    assert ([a] + arrivals)[1..] == arrivals;
  }

  lemma OwnedCons(frame: nat, a: Arrival, arrivals: seq<Arrival>)
    ensures OwnedAll(frame, [a] + arrivals) == [Owned(frame, a)] + OwnedAll(frame, arrivals)
  {
    assert ([a] + arrivals)[1..] == arrivals;
  }

  /** Junk is the same whatever frame it is counted to. */
  lemma {:induction false} JunkIsAnyones(sent: seq<Batches>, from: nat, to: nat, arrivals: seq<Arrival>)
    requires from < |sent| && to < |sent| && FromFrame(sent[from], arrivals) && !AnySent(arrivals)
    ensures FromFrame(sent[to], arrivals) && Packets(sent[to], arrivals) == Packets(sent[from], arrivals)
    ensures OwnedAll(to, arrivals) == OwnedAll(from, arrivals)
    decreases |arrivals|
  {
    if arrivals != [] {
      AnySentCons(arrivals[0], arrivals[1..]);
      assert arrivals == [arrivals[0]] + arrivals[1..];
      JunkIsAnyones(sent, from, to, arrivals[1..]);
      assert Admissible(sent[from], arrivals[0]);
      PacketsCons(sent[to], arrivals[0], arrivals[1..]);
    }
  }

  lemma Regroup<T>(x: T, ys: seq<T>, zs: seq<T>)
    ensures ([x] + ys) + zs == [x] + (ys + zs)
  {
  }

  /** What one more packet at the front of the first stretch does. */
  lemma Lengthened(sent: seq<Batches>, frame: nat, a: Arrival, arrivals: seq<Arrival>, others: seq<Stretch>)
    requires frame < |sent| && Admissible(sent[frame], a) && Fit(sent, [Stretch(frame, arrivals)] + others)
    ensures
      var was, now := [Stretch(frame, arrivals)] + others, [Stretch(frame, [a] + arrivals)] + others;
      && Fit(sent, now)
      && StretchPackets(sent, now) == [PacketOf(sent[frame], a)] + StretchPackets(sent, was)
      && StretchesOwned(now) == [Owned(frame, a)] + StretchesOwned(was)
  {
    var was, now := [Stretch(frame, arrivals)] + others, [Stretch(frame, [a] + arrivals)] + others;
    assert was[1..] == others && now[1..] == others;
    PacketsCons(sent[frame], a, arrivals);
    OwnedCons(frame, a, arrivals);
    Regroup(PacketOf(sent[frame], a), Packets(sent[frame], arrivals), StretchPackets(sent, others));
    Regroup(Owned(frame, a), OwnedAll(frame, arrivals), StretchesOwned(others));
  }

  /** An empty stretch holds nothing. */
  lemma Begun(sent: seq<Batches>, frame: nat, others: seq<Stretch>)
    requires frame < |sent| && Fit(sent, others)
    ensures
      var ss := [Stretch(frame, [])] + others;
      && Fit(sent, ss) && StretchPackets(sent, ss) == StretchPackets(sent, others)
      && StretchesOwned(ss) == StretchesOwned(others)
  {
    assert ([Stretch(frame, [])] + others)[1..] == others;
  }

  /** Junk at the front can be counted to another frame. */
  lemma Recounted(sent: seq<Batches>, frame: nat, ss: seq<Stretch>)
    requires frame < |sent| && ss != [] && Fit(sent, ss) && !AnySent(ss[0].arrivals)
    ensures
      var now := [Stretch(frame, ss[0].arrivals)] + ss[1..];
      && Fit(sent, now) && StretchPackets(sent, now) == StretchPackets(sent, ss)
      && StretchesOwned(now) == StretchesOwned(ss)
  {
    assert ([Stretch(frame, ss[0].arrivals)] + ss[1..])[1..] == ss[1..];
    JunkIsAnyones(sent, ss[0].frame, frame, ss[0].arrivals);
  }

  /** The packet comes first, before those of the other stretches. */
  lemma FrontIs(sent: seq<Batches>, tag: Tagged, rest: seq<Stretch>)
    requires Fit(sent, rest) && tag.frame < |sent| && Admissible(sent[tag.frame], tag.arrival)
    ensures
      var ss := Front(tag, rest);
      && Fit(sent, ss)
      && StretchPackets(sent, ss) == [PacketOf(sent[tag.frame], tag.arrival)] + StretchPackets(sent, rest)
      && StretchesOwned(ss) == [Owned(tag.frame, tag.arrival)] + StretchesOwned(rest)
  {
    var f, a := tag.frame, tag.arrival;
    if rest != [] && (a.Junk? || f == rest[0].frame) {
      assert rest == [Stretch(rest[0].frame, rest[0].arrivals)] + rest[1..];
      Lengthened(sent, rest[0].frame, a, rest[0].arrivals, rest[1..]);
    } else if rest != [] && !AnySent(rest[0].arrivals) {
      Recounted(sent, f, rest);
      Lengthened(sent, f, a, rest[0].arrivals, rest[1..]);
    } else {
      Begun(sent, f, rest);
      Lengthened(sent, f, a, [], rest);
      assert [a] + [] == [a] && [Stretch(f, [a])] + rest == Front(tag, rest);
    }
  }

  lemma FrontTurns(tag: Tagged, rest: seq<Stretch>)
    requires Turns(rest)
    ensures Turns(Front(tag, rest))
  {
    AnySentCons(tag.arrival, []);
    if rest != [] {
      AnySentCons(tag.arrival, rest[0].arrivals);
      var ss := Front(tag, rest);
      assert ss[1..] == rest[1..] || ss[1..] == rest;
    }
  }

  /**
   * A stream's stretches hold its packets in their order, each with its frame, and neighbours are of
   * different frames: no stretch could be longer.
   */
  lemma {:induction false} StretchesAre(sent: seq<Batches>, stream: seq<Tagged>)
    requires OfFrames(sent, stream)
    ensures
      var ss := Stretches(stream);
      && Fit(sent, ss) && Turns(ss)
      && StretchPackets(sent, ss) == StreamPackets(sent, stream)
      && StretchesOwned(ss) == StreamOwned(stream)
    decreases |stream|
  {
    if stream != [] {
      StretchesAre(sent, stream[1..]);
      FrontIs(sent, stream[0], Stretches(stream[1..]));
      FrontTurns(stream[0], Stretches(stream[1..]));
    }
  }

  // ---- the session a stream makes ----

  /** The frames sent (not what arrived of them): each can be rebuilt, and no two have the same index. */
  ghost predicate Sendable(c: Codec, frames: seq<Transmission>) {
    && (forall j | 0 <= j < |frames| :: 0.0 <= frames[j].redundancy <= 1.0 && CodecRecovers(c, frames[j].redundancy))
    && forall j, k | 0 <= j < k < |frames| :: frames[j].frameIndex != frames[k].frameIndex
  }

  function Sent(c: Codec, frames: seq<Transmission>): (sent: seq<Batches>)
    ensures |sent| == |frames| && forall j | 0 <= j < |frames| :: sent[j] == frames[j].Batches(c)
  {
    if frames == [] then [] else Sent(c, frames[..|frames| - 1]) + [frames[|frames| - 1].Batches(c)]
  }

  predicate Within(n: nat, ss: seq<Stretch>) {
    ss == [] || (ss[0].frame < n && Within(n, ss[1..]))
  }

  lemma {:induction false} FitsWithin(sent: seq<Batches>, ss: seq<Stretch>)
    requires Fit(sent, ss)
    ensures Within(|sent|, ss)
    decreases |ss|
  {
    if ss != [] {
      FitsWithin(sent, ss[1..]);
    }
  }

  /** The frame as sent, with the arrivals of a stretch. */
  function Heard(frames: seq<Transmission>, s: Stretch): Transmission
    requires s.frame < |frames|
  {
    frames[s.frame].(arrivals := s.arrivals)
  }

  function AsSession(frames: seq<Transmission>, ss: seq<Stretch>): (ts: seq<Transmission>)
    requires Within(|frames|, ss)
    ensures |ts| == |ss|
  {
    if ss == [] then [] else [Heard(frames, ss[0])] + AsSession(frames, ss[1..])
  }

  lemma HeardIs(c: Codec, frames: seq<Transmission>, s: Stretch)
    requires s.frame < |frames|
    ensures Heard(frames, s).Batches(c) == Sent(c, frames)[s.frame]
  {
  }

  lemma ReceivableCons(c: Codec, t: Transmission, ts: seq<Transmission>)
    requires FromFrame(t.Batches(c), t.arrivals) && Receivable(c, ts)
    ensures Receivable(c, [t] + ts)
    ensures SessionPackets(c, [t] + ts) == Packets(t.Batches(c), t.arrivals) + SessionPackets(c, ts)
  {
    assert ([t] + ts)[1..] == ts;
  }

  lemma {:induction false} SessionIsStretches(c: Codec, frames: seq<Transmission>, ss: seq<Stretch>)
    requires Within(|frames|, ss) && Fit(Sent(c, frames), ss)
    ensures Receivable(c, AsSession(frames, ss))
    ensures SessionPackets(c, AsSession(frames, ss)) == StretchPackets(Sent(c, frames), ss)
    decreases |ss|
  {
    if ss != [] {
      HeardIs(c, frames, ss[0]);
      SessionIsStretches(c, frames, ss[1..]);
      ReceivableCons(c, Heard(frames, ss[0]), AsSession(frames, ss[1..]));
    }
  }

  lemma {:induction false} SessionAlternates(c: Codec, frames: seq<Transmission>, ss: seq<Stretch>)
    requires Sendable(c, frames) && Turns(ss) && Within(|frames|, ss)
    ensures Alternating(AsSession(frames, ss))
    decreases |ss|
  {
    if |ss| > 1 {
      SessionAlternates(c, frames, ss[1..]);
      var ts := AsSession(frames, ss);
      assert ts[1..] == AsSession(frames, ss[1..]);
      assert frames[ss[0].frame].frameIndex != frames[ss[1].frame].frameIndex;
    }
  }

  lemma HeardPossible(c: Codec, frames: seq<Transmission>, s: Stretch)
    requires Sendable(c, frames) && s.frame < |frames| && FromFrame(Sent(c, frames)[s.frame], s.arrivals)
    ensures Heard(frames, s).Possible(c)
  {
    HeardIs(c, frames, s);
  }

  lemma {:induction false} FitAt(sent: seq<Batches>, ss: seq<Stretch>, k: nat)
    requires Fit(sent, ss) && k < |ss|
    ensures ss[k].frame < |sent| && FromFrame(sent[ss[k].frame], ss[k].arrivals)
    decreases |ss|
  {
    if k > 0 {
      FitAt(sent, ss[1..], k - 1);
      assert ss[1..][k - 1] == ss[k];
    }
  }

  lemma {:induction false} SessionAt(frames: seq<Transmission>, ss: seq<Stretch>, k: nat)
    requires Within(|frames|, ss) && k < |ss|
    ensures ss[k].frame < |frames| && AsSession(frames, ss)[k] == Heard(frames, ss[k])
    decreases |ss|
  {
    if k > 0 {
      SessionAt(frames, ss[1..], k - 1);
    }
  }

  /**
   * Whatever is lost, duplicated or reordered, across frames too: from a receiver on none of the frames,
   * exactly those come out that get enough shards of every code word in one stretch of packets with none
   * of another frame between them, once for each such stretch and in that order.
   */
  lemma StreamDelivers(c: Codec, state: Receiver, frames: seq<Transmission>, stream: seq<Tagged>)
    requires Sendable(c, frames) && OfFrames(Sent(c, frames), stream)
    requires forall j | 0 <= j < |frames| :: NotHolding(state, frames[j].frameIndex)
    ensures Within(|frames|, Stretches(stream))
    ensures FeedAll(c, state, StreamPackets(Sent(c, frames), stream)).outputs
         == SessionFrames(c, AsSession(frames, Stretches(stream)))
  {
    var sent, ss := Sent(c, frames), Stretches(stream);
    StretchesAre(sent, stream);
    FitsWithin(sent, ss);
    var ts := AsSession(frames, ss);
    SessionIsStretches(c, frames, ss);
    SessionAlternates(c, frames, ss);
    forall k | 0 <= k < |ts|
      ensures ts[k].Possible(c)
    {
      FitAt(sent, ss, k);
      SessionAt(frames, ss, k);
      HeardPossible(c, frames, ss[k]);
    }
    SessionDelivers(c, state, ts);
  }
}
