/** Packet layout of the video stream: RTP header, FVP header, shard (transport/rtp.rs, protocol.rs). */
module VideoPacket {
  import opened Options
  import opened Bytes
  import opened ErasureCode
  import FecLayout

  const RTP_HEADER_LEN: nat := 12
  const PACKET_HEADER_LEN: nat := 24
  const RTP_PT_H265: byte := 97
  const VIDEO_SSRC: u32 := 0x42
  const MAX_FRAME_SHARDS: nat := FecLayout.MAX_FRAME_SHARDS

  // ---- FVP flags: bit 0 keyframe, bits 1-4 slice index, 5-8 slice count, 9-10 stream id ----
  // The masked and shifted fields do not overlap, so `|` is `+`, and `& mask >> shift` is a
  // division and a remainder.

  function EncodeSimpleFlags(isKeyframe: bool): u16 {
    if isKeyframe then 1 else 0
  }

  function EncodeFlags(isKeyframe: bool, sliceIndex: byte, sliceCount: byte, streamId: byte): u16 {
    EncodeSimpleFlags(isKeyframe) + 2 * (sliceIndex % 16) + 32 * (sliceCount % 16) + 512 * (streamId % 4)
  }

  function SliceIndexOf(flags: u16): nat {
    flags / 2 % 16
  }

  function SliceCountOf(flags: u16): nat {
    flags / 32 % 16
  }

  function StreamIdOf(flags: u16): nat {
    flags / 512 % 4
  }

  predicate IsKeyframe(flags: u16) {
    flags % 2 == 1
  }

  lemma FlagsRoundTrip(isKeyframe: bool, sliceIndex: byte, sliceCount: byte, streamId: byte)
    ensures
      var flags := EncodeFlags(isKeyframe, sliceIndex, sliceCount, streamId);
      && IsKeyframe(flags) == isKeyframe
      && SliceIndexOf(flags) == sliceIndex % 16
      && SliceCountOf(flags) == sliceCount % 16
      && StreamIdOf(flags) == streamId % 4
  {
    var k: int, a: int, b: int, c: int := EncodeSimpleFlags(isKeyframe), sliceIndex % 16, sliceCount % 16, streamId % 4;
    var flags := k + 2 * a + 32 * b + 512 * c;
    assert EncodeFlags(isKeyframe, sliceIndex, sliceCount, streamId) == flags;
    assert flags % 2 == k && flags / 2 == a + 16 * (b + 16 * c) by { LowField(2, k, a + 16 * (b + 16 * c)); }
    assert flags / 32 == b + 16 * c by { LowField(32, k + 2 * a, b + 16 * c); }
    assert flags / 512 == c by { LowField(512, k + 2 * a + 32 * b, c); }
    LowField(16, a, b + 16 * c);
    LowField(16, b, c);
  }

  /** In particular for values within their widths. */
  lemma FlagsKept(isKeyframe: bool, sliceIndex: byte, sliceCount: byte, streamId: byte)
    requires sliceIndex < 16 && sliceCount < 16 && streamId < 4
    ensures
      var flags := EncodeFlags(isKeyframe, sliceIndex, sliceCount, streamId);
      && IsKeyframe(flags) == isKeyframe
      && SliceIndexOf(flags) == sliceIndex
      && SliceCountOf(flags) == sliceCount
      && StreamIdOf(flags) == streamId
  {
    FlagsRoundTrip(isKeyframe, sliceIndex, sliceCount, streamId);
  }

  /** A field below a field of each width used above. */
  lemma LowField(width: nat, low: nat, high: nat)
    requires (width == 2 || width == 16 || width == 32 || width == 512) && low < width
    ensures (width * high + low) / width == high && (width * high + low) % width == low
  {
    if width == 2 {
      assert (2 * high + low) / 2 == high;
    } else if width == 16 {
      assert (16 * high + low) / 16 == high;
    } else if width == 32 {
      assert (32 * high + low) / 32 == high;
    } else {
      assert (512 * high + low) / 512 == high;
    }
  }

  // ---- headers ----

  datatype FvpHeader = FvpHeader(frameIndex: u32, shardIndex: u16, shardCount: u16, flags: u16, dataShardCount: u16) {
    predicate IsValid() {
      && 0 < shardCount <= MAX_FRAME_SHARDS
      && shardIndex < shardCount
      && 0 < dataShardCount <= shardCount
    }
  }

  function RtpHeader(payloadType: byte, marker: bool, sequence: u16, timestamp: u32, ssrc: u32): (h: seq<byte>)
    ensures |h| == RTP_HEADER_LEN
  {
    [0x80, (if marker then 0x80 else 0) + payloadType % 0x80] + Be16(sequence) + Be32(timestamp) + Be32(ssrc)
  }

  function FvpHeaderBytes(h: FvpHeader): (s: seq<byte>)
    ensures |s| == PACKET_HEADER_LEN - RTP_HEADER_LEN
  {
    Le32(h.frameIndex) + Le16(h.shardIndex) + Le16(h.shardCount) + Le16(h.flags) + Le16(h.dataShardCount)
  }

  function ReadFvpHeader(packet: seq<byte>): (h: Option<FvpHeader>)
    ensures h.Some? <==> |packet| >= PACKET_HEADER_LEN
  {
    if |packet| < PACKET_HEADER_LEN then None
    else
      var f := packet[RTP_HEADER_LEN..PACKET_HEADER_LEN];
      Some(FvpHeader(FromLe32(f[0], f[1], f[2], f[3]), FromLe16(f[4], f[5]), FromLe16(f[6], f[7]),
                     FromLe16(f[8], f[9]), FromLe16(f[10], f[11])))
  }

  function Packet(rtp: seq<byte>, h: FvpHeader, shard: Shard): seq<byte> {
    rtp + FvpHeaderBytes(h) + shard
  }

  /** A receiver reads back the header and the shard. */
  lemma PacketReadsBack(rtp: seq<byte>, h: FvpHeader, shard: Shard)
    requires |rtp| == RTP_HEADER_LEN
    ensures ReadFvpHeader(Packet(rtp, h, shard)) == Some(h)
    ensures Packet(rtp, h, shard)[PACKET_HEADER_LEN..] == shard
    ensures Packet(rtp, h, shard)[..RTP_HEADER_LEN] == rtp
  {
    var p := Packet(rtp, h, shard);
    assert p[RTP_HEADER_LEN..PACKET_HEADER_LEN] == FvpHeaderBytes(h);
    Le32RoundTrip(h.frameIndex);
    Le16RoundTrip(h.shardIndex);
    Le16RoundTrip(h.shardCount);
    Le16RoundTrip(h.flags);
    Le16RoundTrip(h.dataShardCount);
  }

  /** The header read is the one whose bytes are there, for any bytes. */
  lemma HeaderWritesBack(packet: seq<byte>)
    requires |packet| >= PACKET_HEADER_LEN
    ensures FvpHeaderBytes(ReadFvpHeader(packet).value) == packet[RTP_HEADER_LEN..PACKET_HEADER_LEN]
  {
    var f := packet[RTP_HEADER_LEN..PACKET_HEADER_LEN];
    Le32Back(f[0], f[1], f[2], f[3]);
    Le16Back(f[4], f[5]);
    Le16Back(f[6], f[7]);
    Le16Back(f[8], f[9]);
    Le16Back(f[10], f[11]);
  }

  // What a receiver of the RTP header sees.
  function RtpSequence(packet: seq<byte>): u16
    requires |packet| >= RTP_HEADER_LEN
  {
    FromBe16(packet[2], packet[3])
  }

  predicate RtpMarker(packet: seq<byte>)
    requires |packet| >= RTP_HEADER_LEN
  {
    packet[1] >= 0x80
  }

  // ---- packets of one code word ----

  /** Sequence numbers count modulo 2^16. */
  function Advance(sequence: u16, n: nat): u16 {
    (sequence + n) % 0x1_0000
  }

  lemma AdvanceTwice(sequence: u16, a: nat, b: nat)
    ensures Advance(Advance(sequence, a), b) == Advance(sequence, a + b)
    ensures Advance(sequence, 0) == sequence
  {
  }

  /** Packet `i` of the code word `all`, numbered from `firstSequence`. */
  function ShardPacket(all: seq<Shard>, dataCount: u16, frameIndex: u32, timestamp: u32, flags: u16,
                       firstSequence: u16, i: nat): seq<byte>
    requires i < |all| <= MAX_FRAME_SHARDS
  {
    Packet(RtpHeader(RTP_PT_H265, i == |all| - 1, Advance(firstSequence, i), timestamp, VIDEO_SSRC),
           FvpHeader(frameIndex, i, |all|, flags, dataCount), all[i])
  }

  /** The first `n` packets of a code word. */
  function FirstPackets(all: seq<Shard>, dataCount: u16, frameIndex: u32, timestamp: u32, flags: u16,
                        firstSequence: u16, n: nat): (s: seq<seq<byte>>)
    requires n <= |all| <= MAX_FRAME_SHARDS
    ensures |s| == n
  {
    if n == 0 then []
    else
      FirstPackets(all, dataCount, frameIndex, timestamp, flags, firstSequence, n - 1)
      + [ShardPacket(all, dataCount, frameIndex, timestamp, flags, firstSequence, n - 1)]
  }

  lemma {:induction false} FirstPacketsAt(all: seq<Shard>, dataCount: u16, frameIndex: u32, timestamp: u32, flags: u16,
                                          firstSequence: u16, n: nat, i: nat)
    requires i < n <= |all| <= MAX_FRAME_SHARDS
    ensures FirstPackets(all, dataCount, frameIndex, timestamp, flags, firstSequence, n)[i] ==
            ShardPacket(all, dataCount, frameIndex, timestamp, flags, firstSequence, i)
  {
    if i < n - 1 {
      FirstPacketsAt(all, dataCount, frameIndex, timestamp, flags, firstSequence, n - 1, i);
    }
  }

  /** The packets of one code word; none when it has more shards than receivers accept. */
  function Batch(all: seq<Shard>, dataCount: u16, frameIndex: u32, timestamp: u32, flags: u16,
                 firstSequence: u16): seq<seq<byte>> {
    if |all| > MAX_FRAME_SHARDS then []
    else FirstPackets(all, dataCount, frameIndex, timestamp, flags, firstSequence, |all|)
  }

  /** The pool after `n` buffers were taken from its end. */
  function LeftInPool(pool: seq<seq<byte>>, n: nat): (rest: seq<seq<byte>>)
    ensures |rest| == (if n <= |pool| then |pool| - n else 0) && rest <= pool
  {
    if n <= |pool| then pool[..|pool| - n] else []
  }

  lemma LeftTwice(pool: seq<seq<byte>>, m: nat, n: nat)
    ensures LeftInPool(LeftInPool(pool, m), n) == LeftInPool(pool, m + n)
    ensures LeftInPool(pool, 0) == pool
  {
  }

  /** Numbers outgoing packets and pools their buffers. */
  class RtpPacketizer {
    const ssrc: u32
    var sequence: u16
    var bufPool: seq<seq<byte>>

    constructor (ssrc: u32)
      ensures this.ssrc == ssrc && sequence == 0 && bufPool == []
    {
      this.ssrc := ssrc;
      sequence := 0;
      bufPool := [];
    }

    method NextSequence() returns (s: u16)
      modifies this`sequence
      ensures s == old(sequence) && sequence == Advance(old(sequence), 1)
    {
      s := sequence;
      sequence := (sequence + 1) % 0x1_0000;
    }

    /** The latest buffer of the pool, emptied, or a new one. */
    method TakeBuf() returns (buf: seq<byte>)
      modifies this`bufPool
      ensures buf == [] && bufPool == LeftInPool(old(bufPool), 1)
    {
      if bufPool == [] {
        return [];
      }
      buf := bufPool[|bufPool| - 1];
      bufPool := bufPool[..|bufPool| - 1];
      buf := buf[..0];
    }

    method Recycle(packets: seq<seq<byte>>)
      modifies this`bufPool
      ensures bufPool == old(bufPool) + packets
    {
      bufPool := bufPool + packets;
    }
  }

  /** Fill an empty buffer with one packet. */
  method WritePacket(buf: seq<byte>, rtp: seq<byte>, h: FvpHeader, shard: Shard) returns (packet: seq<byte>)
    ensures buf == [] ==> packet == Packet(rtp, h, shard)
  {
    packet := buf + rtp;
    assert buf == [] ==> packet == rtp;
    packet := packet + FvpHeaderBytes(h);
    packet := packet + shard;
  }

  /** Wrap shards as packets. (Debug builds also assert that there is a data shard, and not more than shards.) */
  method ShardsToPackets(all: seq<Shard>, dataCount: nat, frameIndex: u32, timestamp: u32, flags: u16,
                         packetizer: RtpPacketizer)
    returns (packets: seq<seq<byte>>)
    modifies packetizer
    ensures packets == Batch(all, dataCount % 0x1_0000, frameIndex, timestamp, flags, old(packetizer.sequence))
    ensures packetizer.sequence == Advance(old(packetizer.sequence), |packets|)
    ensures packetizer.bufPool == LeftInPool(old(packetizer.bufPool), |packets|)
  {
    if |all| > MAX_FRAME_SHARDS {
      return [];
    }
    packets := [];
    ghost var first, pool := packetizer.sequence, packetizer.bufPool;
    var count: u16 := dataCount % 0x1_0000;
    LeftTwice(pool, 0, 0);
    for i := 0 to |all|
      invariant packetizer.sequence == Advance(first, i)
      invariant packetizer.bufPool == LeftInPool(pool, i)
      invariant packets == FirstPackets(all, count, frameIndex, timestamp, flags, first, i)
    {
      var isLast := i == |all| - 1;
      var sequence := packetizer.NextSequence();
      AdvanceTwice(first, i, 1);
      LeftTwice(pool, i, 1);
      var buf := packetizer.TakeBuf();
      var header := FvpHeader(frameIndex, i, |all|, flags, count);
      buf := WritePacket(buf, RtpHeader(RTP_PT_H265, isLast, sequence, timestamp, VIDEO_SSRC), header, all[i]);
      assert buf == ShardPacket(all, count, frameIndex, timestamp, flags, first, i);
      packets := packets + [buf];
    }
  }

  /** Packet `i` of a batch of `size`, as a receiver reads it. */
  predicate WireFormat(p: seq<byte>, frameIndex: u32, i: nat, size: nat, sequence: u16) {
    && ReadFvpHeader(p).Some? && ReadFvpHeader(p).value.IsValid()
    && ReadFvpHeader(p).value.frameIndex == frameIndex
    && ReadFvpHeader(p).value.shardIndex == i && ReadFvpHeader(p).value.shardCount == size
    && RtpSequence(p) == sequence
    && (RtpMarker(p) <==> i == size - 1)
  }

  /**
   * Every packet of a batch carries its shard under a valid header, is
   * numbered consecutively, and only the last one has the marker.
   */
  lemma BatchPacket(all: seq<Shard>, dataCount: u16, frameIndex: u32, timestamp: u32, flags: u16,
                    firstSequence: u16, i: nat)
    requires i < |all| <= MAX_FRAME_SHARDS && 0 < dataCount <= |all|
    ensures
      var p := Batch(all, dataCount, frameIndex, timestamp, flags, firstSequence)[i];
      && |p| == PACKET_HEADER_LEN + |all[i]|
      && ReadFvpHeader(p) == Some(FvpHeader(frameIndex, i, |all|, flags, dataCount))
      && p[PACKET_HEADER_LEN..] == all[i]
      && WireFormat(p, frameIndex, i, |all|, Advance(firstSequence, i))
  {
    var sequence: u16 := Advance(firstSequence, i);
    var rtp := RtpHeader(RTP_PT_H265, i == |all| - 1, sequence, timestamp, VIDEO_SSRC);
    var h := FvpHeader(frameIndex, i, |all|, flags, dataCount);
    FirstPacketsAt(all, dataCount, frameIndex, timestamp, flags, firstSequence, |all|, i);
    PacketReadsBack(rtp, h, all[i]);
    var p := Packet(rtp, h, all[i]);
    assert p[1] == rtp[1] && p[2] == rtp[2] && p[3] == rtp[3];
    assert rtp[2] == Be16(sequence)[0] && rtp[3] == Be16(sequence)[1];
    Be16RoundTrip(sequence);
  }

  /** One packet after the other is numbered one higher, and 0 comes after 65535. */
  lemma SequenceSteps(sequence: u16, n: nat)
    ensures Advance(sequence, 0) == sequence
    ensures Advance(sequence, n + 1) == if Advance(sequence, n) == 65535 then 0 else Advance(sequence, n) + 1
  {
  }

  /** The RTP part of a packet, byte by byte as section 5.1 of RFC 3550 lays it out: version 2, H.265, timestamp, SSRC. */
  lemma RtpPart(all: seq<Shard>, dataCount: u16, frameIndex: u32, timestamp: u32, flags: u16, firstSequence: u16, i: nat)
    requires i < |all| <= MAX_FRAME_SHARDS
    ensures
      var p := Batch(all, dataCount, frameIndex, timestamp, flags, firstSequence)[i];
      && |p| >= 12 && p[0] == 0x80 && p[1] == 97 + (if i == |all| - 1 then 128 else 0)
      && FromBe16(p[2], p[3]) == Advance(firstSequence, i)
      && FromBe32(p[4], p[5], p[6], p[7]) == timestamp
      && p[8] == 0 && p[9] == 0 && p[10] == 0 && p[11] == 0x42
  {
    var sequence: u16 := Advance(firstSequence, i);
    var rtp := RtpHeader(RTP_PT_H265, i == |all| - 1, sequence, timestamp, VIDEO_SSRC);
    FirstPacketsAt(all, dataCount, frameIndex, timestamp, flags, firstSequence, |all|, i);
    var p := ShardPacket(all, dataCount, frameIndex, timestamp, flags, firstSequence, i);
    assert forall k :: 0 <= k < 12 ==> p[k] == rtp[k];
    RtpBytes(i == |all| - 1, sequence, timestamp);
  }

  /** The FVP part of a packet, little-endian fields at bytes 12, 16, 18, 20 and 22. */
  lemma FvpPart(all: seq<Shard>, dataCount: u16, frameIndex: u32, timestamp: u32, flags: u16, firstSequence: u16, i: nat)
    requires i < |all| <= MAX_FRAME_SHARDS && 0 < dataCount <= |all|
    ensures
      var p := Batch(all, dataCount, frameIndex, timestamp, flags, firstSequence)[i];
      && |p| >= 24 && FromLe32(p[12], p[13], p[14], p[15]) == frameIndex
      && FromLe16(p[16], p[17]) == i && FromLe16(p[18], p[19]) == |all|
      && FromLe16(p[20], p[21]) == flags && FromLe16(p[22], p[23]) == dataCount
  {
    BatchPacket(all, dataCount, frameIndex, timestamp, flags, firstSequence, i);
  }

  lemma RtpBytes(marker: bool, sequence: u16, timestamp: u32)
    ensures
      var rtp := RtpHeader(RTP_PT_H265, marker, sequence, timestamp, VIDEO_SSRC);
      && rtp[0] == 0x80 && rtp[1] == 97 + (if marker then 128 else 0)
      && FromBe16(rtp[2], rtp[3]) == sequence
      && FromBe32(rtp[4], rtp[5], rtp[6], rtp[7]) == timestamp
      && rtp[8] == 0 && rtp[9] == 0 && rtp[10] == 0 && rtp[11] == 0x42
  {
    var rtp := RtpHeader(RTP_PT_H265, marker, sequence, timestamp, VIDEO_SSRC);
    assert rtp[2..4] == Be16(sequence) && rtp[4..8] == Be32(timestamp) && rtp[8..12] == Be32(VIDEO_SSRC);
    Be16RoundTrip(sequence);
    Be32RoundTrip(timestamp);
    assert rtp[2] == Be16(sequence)[0] && rtp[3] == Be16(sequence)[1];
    assert rtp[4] == Be32(timestamp)[0] && rtp[5] == Be32(timestamp)[1];
    assert rtp[6] == Be32(timestamp)[2] && rtp[7] == Be32(timestamp)[3];
    assert rtp[8] == Be32(VIDEO_SSRC)[0] && rtp[9] == Be32(VIDEO_SSRC)[1];
    assert rtp[10] == Be32(VIDEO_SSRC)[2] && rtp[11] == Be32(VIDEO_SSRC)[3];
  }
}
