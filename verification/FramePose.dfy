/** The head-orientation prefix of a video frame (protocol.rs, `frame_pose`). */
module FramePose {
  import opened Options
  import opened Bytes

  const LEN: nat := 20
  const MAGIC_F: byte := 0x46
  const MAGIC_P: byte := 0x50
  const VERSION: byte := 1
  const ORIENTATION_KNOWN: byte := 0x01

  /** An orientation by the bit patterns of its four f32 components. */
  datatype Orientation = Orientation(x: u32, y: u32, z: u32, w: u32)

  /** Neither infinite nor NaN: the exponent bits are not all ones. */
  predicate IsFinite(bits: u32) {
    bits / 0x80_0000 % 0x100 != 0xFF
  }

  predicate AllFinite(q: Orientation) {
    IsFinite(q.x) && IsFinite(q.y) && IsFinite(q.z) && IsFinite(q.w)
  }

  function Encode(orientation: Option<Orientation>): (prefix: seq<byte>)
    ensures |prefix| == LEN
  {
    match orientation
    case None => [MAGIC_F, MAGIC_P, VERSION, 0] + Zeros(16)
    case Some(q) => [MAGIC_F, MAGIC_P, VERSION, ORIENTATION_KNOWN] + Le32(q.x) + Le32(q.y) + Le32(q.z) + Le32(q.w)
  }

  datatype Posed = Posed(orientation: Option<Orientation>, data: seq<byte>)

  function F32At(frame: seq<byte>, i: nat): u32
    requires 4 * i + 8 <= |frame|
  {
    FromLe32(frame[4 + i * 4], frame[5 + i * 4], frame[6 + i * 4], frame[7 + i * 4])
  }

  /** The orientation, if known and finite, and the data after the prefix. */
  function Parse(frame: seq<byte>): Option<Posed> {
    if |frame| < LEN || frame[0] != MAGIC_F || frame[1] != MAGIC_P || frame[2] != VERSION then None
    else
      var rest := frame[LEN..];
      if frame[3] % 2 == 0 then Some(Posed(None, rest))
      else
        var q := Orientation(F32At(frame, 0), F32At(frame, 1), F32At(frame, 2), F32At(frame, 3));
        Some(Posed(if AllFinite(q) then Some(q) else None, rest))
  }

  /** What a reader learns of an orientation. */
  function Readable(orientation: Option<Orientation>): Option<Orientation> {
    if orientation.Some? && AllFinite(orientation.value) then orientation else None
  }

  lemma F32Reads(frame: seq<byte>, i: nat, x: u32)
    requires 4 * i + 8 <= |frame| && frame[4 + i * 4..8 + i * 4] == Le32(x)
    ensures F32At(frame, i) == x
  {
    Le32RoundTrip(x);
    var s := frame[4 + i * 4..8 + i * 4];
    assert s[0] == frame[4 + i * 4] && s[1] == frame[5 + i * 4] && s[2] == frame[6 + i * 4] && s[3] == frame[7 + i * 4];
  }

  /** Four words behind the first four bytes. */
  lemma WordsAt(head: seq<byte>, a: seq<byte>, b: seq<byte>, c: seq<byte>, d: seq<byte>, rest: seq<byte>)
    requires |head| == 4 && |a| == 4 && |b| == 4 && |c| == 4 && |d| == 4
    ensures
      var frame := head + a + b + c + d + rest;
      && frame[..4] == head && frame[4..8] == a && frame[8..12] == b && frame[12..16] == c && frame[16..20] == d
      && frame[20..] == rest
  {
  }

  lemma KnownReads(q: Orientation, data: seq<byte>)
    ensures
      var frame := Encode(Some(q)) + data;
      && F32At(frame, 0) == q.x && F32At(frame, 1) == q.y && F32At(frame, 2) == q.z && F32At(frame, 3) == q.w
  {
    var frame := Encode(Some(q)) + data;
    WordsAt([MAGIC_F, MAGIC_P, VERSION, ORIENTATION_KNOWN], Le32(q.x), Le32(q.y), Le32(q.z), Le32(q.w), data);
    F32Reads(frame, 0, q.x);
    F32Reads(frame, 1, q.y);
    F32Reads(frame, 2, q.z);
    F32Reads(frame, 3, q.w);
  }

  lemma PoseRoundTrip(orientation: Option<Orientation>, data: seq<byte>)
    ensures Parse(Encode(orientation) + data) == Some(Posed(Readable(orientation), data))
  {
    var frame := Encode(orientation) + data;
    assert frame[LEN..] == data;
    assert frame[0] == MAGIC_F && frame[1] == MAGIC_P && frame[2] == VERSION;
    assert frame[3] == if orientation.Some? then ORIENTATION_KNOWN else 0;
    if orientation.Some? {
      KnownReads(orientation.value, data);
    }
  }

  /** By sign, exponent and fraction: finite are exactly the numbers whose exponent is not 255. */
  lemma FiniteExactly(sign: nat, exponent: nat, fraction: nat)
    requires sign < 2 && exponent < 256 && fraction < 0x80_0000
    ensures IsFinite(0x8000_0000 * sign + 0x80_0000 * exponent + fraction) <==> exponent < 255
  {
    var bits: int := 0x8000_0000 * sign + 0x80_0000 * exponent + fraction;
    assert bits / 0x80_0000 == 256 * sign + exponent;
  }

  /** The identity (0, 0, 0, 1) comes through; one with an infinite component does not. */
  lemma IdentityIsReadable()
    ensures Readable(Some(Orientation(0, 0, 0, 0x3F80_0000))) == Some(Orientation(0, 0, 0, 0x3F80_0000))
    ensures Readable(Some(Orientation(0, 0x7F80_0000, 0, 0x3F80_0000))) == None
  {
    FiniteExactly(0, 127, 0);
    FiniteExactly(0, 255, 0);
    FiniteExactly(0, 0, 0);
  }

  /** A frame is read as posed exactly if it starts with the 20-byte prefix: F, P and version 1. */
  lemma PosedExactly(frame: seq<byte>)
    ensures Parse(frame).Some? <==> |frame| >= 20 && frame[0] == 70 && frame[1] == 80 && frame[2] == 1
    ensures Parse(frame).Some? ==> Parse(frame).value.data == frame[20..]
    ensures Parse(frame).Some? && frame[3] % 2 == 0 ==> Parse(frame).value.orientation == None
  {
  }
}
