/** The framing of the control connection: length-prefixed messages out of reads of any size. */
module ControlFraming {
  import opened Options
  import opened Bytes
  import opened Machine

  const MAX_MSG_LEN: nat := 65536

  /** What a look at the inbox gives: nothing yet, a message, or a length that cannot be trusted. */
  datatype Taken = Incomplete | Message(msg: seq<byte>) | TooLong(len: nat)

  function LengthAt(inbox: seq<byte>): nat
    requires |inbox| >= 4
  {
    FromLe32(inbox[0], inbox[1], inbox[2], inbox[3])
  }

  /** The first thing in the inbox, past empty frames, and what is left behind it. */
  function Take(inbox: seq<byte>): (r: (Taken, seq<byte>))
    ensures r.0.Incomplete? ==> |r.1| < 4 + MAX_MSG_LEN
    ensures r.0.Message? ==> 1 <= |r.0.msg| <= MAX_MSG_LEN && |r.1| < |inbox|
    decreases |inbox|
  {
    if |inbox| < 4 then (Incomplete, inbox)
    else
      var len := LengthAt(inbox);
      if len == 0 then Take(inbox[4..])
      else if len > MAX_MSG_LEN then (TooLong(len), inbox)
      else if |inbox| < 4 + len then (Incomplete, inbox)
      else (Message(inbox[4..4 + len]), inbox[4 + len..])
  }

  /** All the messages of a stream, what is left of it, and the length that ended it, if any. */
  datatype Parsed = Parsed(messages: seq<seq<byte>>, rest: seq<byte>, error: Option<nat>)

  function Parse(stream: seq<byte>): (p: Parsed)
    decreases |stream|
  {
    match Take(stream)
    case (Incomplete, rest) => Parsed([], rest, None)
    case (TooLong(len), rest) => Parsed([], rest, Some(len))
    case (Message(msg), rest) =>
      var more := Parse(rest);
      Parsed([msg] + more.messages, more.rest, more.error)
  }

  /** One connection's side of the framing. */
  class ControlReader {
    var inbox: seq<byte>

    constructor ()
      ensures inbox == []
    {
      inbox := [];
    }

    /** Take the next complete message off the front of the inbox. */
    method TakeControlMessage() returns (taken: Taken)
      modifies this
      ensures (taken, inbox) == Take(old(inbox))
    {
      while true
        invariant Take(inbox) == Take(old(inbox))
        decreases |inbox|
      {
        if |inbox| < 4 {
          return Incomplete;
        }
        var len := LengthAt(inbox);
        if len == 0 {
          inbox := inbox[4..];
          continue;
        }
        if len > MAX_MSG_LEN {
          return TooLong(len);
        }
        if |inbox| < 4 + len {
          return Incomplete;
        }
        var msg := inbox[4..4 + len];
        inbox := inbox[4 + len..];
        return Message(msg);
      }
    }

    /** One read: append it and take every complete message; an error ends the connection. */
    method OnRead(chunk: seq<byte>) returns (messages: seq<seq<byte>>, error: Option<nat>)
      modifies this
      ensures Parsed(messages, inbox, error) == Parse(old(inbox) + chunk)
      ensures error.None? ==> |inbox| < 4 + MAX_MSG_LEN
    {
      inbox := inbox + chunk;
      ghost var stream := inbox;
      messages := [];
      while true
        invariant
          var more := Parse(inbox);
          Parse(stream) == Parsed(messages + more.messages, more.rest, more.error)
        decreases |inbox|
      {
        ghost var before := inbox;
        var taken := TakeControlMessage();
        match taken
        case Incomplete =>
          RestIsStuck(before);
          return messages, None;
        case TooLong(len) =>
          RestIsStuck(before);
          return messages, Some(len);
        case Message(msg) =>
          assert messages + ([msg] + Parse(inbox).messages) == messages + [msg] + Parse(inbox).messages;
          messages := messages + [msg];
      }
    }
  }

  lemma RestIsStuck(inbox: seq<byte>)
    requires !Take(inbox).0.Message?
    ensures Parse(inbox).messages == [] && Parse(inbox).rest == Take(inbox).1
  {
  }

  // ---- any cutting of the stream into reads ----

  lemma LengthOfMore(a: seq<byte>, b: seq<byte>)
    requires |a| >= 4
    ensures LengthAt(a + b) == LengthAt(a)
    ensures (a + b)[4..] == a[4..] + b
  {
  }

  lemma TakeWhole(a: seq<byte>, b: seq<byte>, len: nat)
    requires |a| >= 4 + len && len == LengthAt(a) && 0 < len <= MAX_MSG_LEN
    ensures Take(a + b) == (Message(a[4..4 + len]), a[4 + len..] + b)
  {
    LengthOfMore(a, b);
    assert (a + b)[4..4 + len] == a[4..4 + len];
    assert (a + b)[4 + len..] == a[4 + len..] + b;
  }

  /** Bytes after what has been taken, or after an error, do not change it. */
  predicate Continues(a: seq<byte>, b: seq<byte>) {
    match Take(a)
    case (Message(msg), rest) => Take(a + b) == (Message(msg), rest + b)
    case (TooLong(len), _) => Take(a + b).0 == TooLong(len)
    case (Incomplete, rest) => Take(a + b) == Take(rest + b)
  }

  lemma {:induction false} TakeMore(a: seq<byte>, b: seq<byte>)
    ensures Continues(a, b)
    decreases |a|
  {
    if |a| >= 4 {
      var len := LengthAt(a);
      LengthOfMore(a, b);
      if len == 0 {
        TakeMore(a[4..], b);
      } else if len <= MAX_MSG_LEN && |a| >= 4 + len {
        TakeWhole(a, b, len);
      }
    }
  }

  lemma SameTake(a: seq<byte>, b: seq<byte>)
    requires Take(a) == Take(b)
    ensures Parse(a) == Parse(b)
  {
  }

  /** What a stream parses to if a first part of it parses to p and b follows. */
  predicate Extends(whole: Parsed, p: Parsed, b: seq<byte>) {
    if p.error.Some? then whole.messages == p.messages && whole.error == p.error
    else var q := Parse(p.rest + b); whole == Parsed(p.messages + q.messages, q.rest, q.error)
  }

  lemma ExtendsAfter(msg: seq<byte>, whole: Parsed, p: Parsed, b: seq<byte>)
    requires Extends(whole, p, b)
    ensures Extends(Parsed([msg] + whole.messages, whole.rest, whole.error), Parsed([msg] + p.messages, p.rest, p.error), b)
  {
    var q := Parse(p.rest + b);
    assert [msg] + (p.messages + q.messages) == [msg] + p.messages + q.messages;
  }

  lemma ParseMessage(stream: seq<byte>)
    requires Take(stream).0.Message?
    ensures
      var more := Parse(Take(stream).1);
      Parse(stream) == Parsed([Take(stream).0.msg] + more.messages, more.rest, more.error)
  {
  }

  /** Parsing a stream goes on from what parsing a first part of it leaves. */
  lemma {:induction false} ParseMore(a: seq<byte>, b: seq<byte>)
    ensures Extends(Parse(a + b), Parse(a), b)
    decreases |a|
  {
    TakeMore(a, b);
    var taken, rest := Take(a).0, Take(a).1;
    if taken.Message? {
      ParseMore(rest, b);
      ParseMessage(a);
      ParseMessage(a + b);
      ExtendsAfter(taken.msg, Parse(rest + b), Parse(rest), b);
    } else if taken.Incomplete? {
      SameTake(a + b, rest + b);
    }
  }

  /** The inbox of a connection, or the length it was closed for. */
  datatype Connection = Open(inbox: seq<byte>) | Closed(len: nat)

  /** What OnRead does: a closed connection reads no more. */
  function Read(c: Connection, chunk: seq<byte>): Outcome<Connection, seq<byte>> {
    if c.Closed? then Outcome(c, [])
    else
      var p := Parse(c.inbox + chunk);
      Outcome(if p.error.Some? then Closed(p.error.value) else Open(p.rest), p.messages)
  }

  function Ended(p: Parsed): Connection {
    if p.error.Some? then Closed(p.error.value) else Open(p.rest)
  }

  lemma {:induction false} ClosedStays(len: nat, chunks: seq<seq<byte>>)
    ensures Run(Read, Closed(len), chunks) == Outcome(Closed(len), [])
    decreases |chunks|
  {
    if chunks != [] {
      ClosedStays(len, chunks[1..]);
    }
  }

  lemma {:induction false} ReadsFrom(inbox: seq<byte>, chunks: seq<seq<byte>>)
    requires Parse(inbox) == Parsed([], inbox, None)
    ensures
      var p := Parse(inbox + Flatten(chunks));
      Run(Read, Open(inbox), chunks) == Outcome(Ended(p), p.messages)
    decreases |chunks|
  {
    if chunks == [] {
      assert inbox + Flatten(chunks) == inbox;
    } else {
      var first, more := inbox + chunks[0], Flatten(chunks[1..]);
      assert inbox + Flatten(chunks) == first + more;
      ParseMore(first, more);
      var p := Parse(first);
      if p.error.Some? {
        ClosedStays(p.error.value, chunks[1..]);
        assert p.messages + [] == p.messages;
      } else {
        RestIsParsed(first);
        ReadsFrom(p.rest, chunks[1..]);
      }
    }
  }

  /** What is left holds no message, and less than the largest one. */
  lemma {:induction false} RestIsParsed(stream: seq<byte>)
    requires Parse(stream).error.None?
    ensures Parse(Parse(stream).rest) == Parsed([], Parse(stream).rest, None)
    ensures |Parse(stream).rest| < 4 + MAX_MSG_LEN
    decreases |stream|
  {
    match Take(stream)
    case (Incomplete, rest) => TakeAgain(stream);
    case (Message(_), rest) => RestIsParsed(rest);
  }

  lemma {:induction false} TakeAgain(inbox: seq<byte>)
    requires Take(inbox).0.Incomplete?
    ensures Take(Take(inbox).1) == Take(inbox)
    decreases |inbox|
  {
    if |inbox| >= 4 && LengthAt(inbox) == 0 {
      TakeAgain(inbox[4..]);
    }
  }

  /** However a stream is cut into reads, its messages, and its error if it has one, are those of the stream as a whole. */
  lemma AnyCutting(chunks: seq<seq<byte>>)
    ensures
      var p := Parse(Flatten(chunks));
      Run(Read, Open([]), chunks) == Outcome(Ended(p), p.messages)
  {
    ReadsFrom([], chunks);
    assert [] + Flatten(chunks) == Flatten(chunks);
  }

  // ---- what send_msg writes ----

  /** Type and payload behind their length, which is written in 32 bits whatever it is. */
  function Frame(msgType: byte, payload: seq<byte>): seq<byte> {
    Le32((1 + |payload|) % 0x1_0000_0000) + [msgType] + payload
  }

  lemma HeadAndBody(head: seq<byte>, body: seq<byte>, rest: seq<byte>)
    requires |head| == 4
    ensures
      var stream := head + body + rest;
      && |stream| >= 4 + |body| && LengthAt(stream) == FromLe32(head[0], head[1], head[2], head[3])
      && stream[4..4 + |body|] == body && stream[4 + |body|..] == rest
  {
  }

  lemma LengthReads(len: u32, body: seq<byte>, rest: seq<byte>)
    requires |body| == len
    ensures
      var stream := Le32(len) + body + rest;
      && |stream| >= 4 + len && LengthAt(stream) == len && stream[4..4 + len] == body && stream[4 + len..] == rest
  {
    HeadAndBody(Le32(len), body, rest);
    Le32RoundTrip(len);
  }

  /** Any frame with its length written in full: read as its message, or as too long. */
  lemma FullLengthReadsBack(msgType: byte, payload: seq<byte>, rest: seq<byte>)
    requires 1 + |payload| < 0x1_0000_0000
    ensures
      Take(Frame(msgType, payload) + rest)
      == if 1 + |payload| <= MAX_MSG_LEN then (Message([msgType] + payload), rest)
         else (TooLong(1 + |payload|), Frame(msgType, payload) + rest)
  {
    var body := [msgType] + payload;
    assert Frame(msgType, payload) + rest == Le32(1 + |payload|) + body + rest;
    LengthReads(1 + |payload|, body, rest);
  }

  lemma ZeroLength(inbox: seq<byte>, rest: seq<byte>)
    requires |inbox| >= 4 && LengthAt(inbox) == 0 && inbox[4..] == rest
    ensures Take(inbox) == Take(rest)
  {
  }

  lemma EmptyFrame(empty: seq<byte>, stream: seq<byte>)
    requires |empty| == 4 && empty[0] == 0 && empty[1] == 0 && empty[2] == 0 && empty[3] == 0
    ensures |empty + stream| >= 4 && LengthAt(empty + stream) == 0 && (empty + stream)[4..] == stream
  {
  }

  /** Empty frames, four zero bytes, are passed over: a stream parses to the same without one in front. */
  lemma EmptyFramesPassedOver(empty: seq<byte>, stream: seq<byte>)
    requires |empty| == 4 && empty[0] == 0 && empty[1] == 0 && empty[2] == 0 && empty[3] == 0
    ensures Take(empty + stream) == Take(stream)
    ensures Parse(empty + stream) == Parse(stream)
  {
    EmptyFrame(empty, stream);
    ZeroLength(empty + stream, stream);
    SameTake(empty + stream, stream);
  }

  /**
   * A frame is read back as its message exactly if it is at most 65536 bytes; a longer one ends the
   * connection as too long if its length fits in 32 bits, and never reads as its message if it does not.
   */
  lemma FrameReadsBack(msgType: byte, payload: seq<byte>, rest: seq<byte>)
    ensures
      var taken := Take(Frame(msgType, payload) + rest);
      && (1 + |payload| <= MAX_MSG_LEN ==> taken == (Message([msgType] + payload), rest))
      && (1 + |payload| > MAX_MSG_LEN ==> taken.0 != Message([msgType] + payload))
      && (MAX_MSG_LEN < 1 + |payload| < 0x1_0000_0000 ==> taken.0 == TooLong(1 + |payload|))
  {
    if 1 + |payload| < 0x1_0000_0000 {
      FullLengthReadsBack(msgType, payload, rest);
    } else {
      assert |[msgType] + payload| == 1 + |payload|;
    }
  }

  datatype Sent = Sent(msgType: byte, payload: seq<byte>)

  function Frames(sent: seq<Sent>): seq<byte> {
    if sent == [] then [] else Frame(sent[0].msgType, sent[0].payload) + Frames(sent[1..])
  }

  function Bodies(sent: seq<Sent>): seq<seq<byte>> {
    if sent == [] then [] else [[sent[0].msgType] + sent[0].payload] + Bodies(sent[1..])
  }

  /** Everything send_msg writes comes back, message by message. */
  lemma {:induction false} FramesReadBack(sent: seq<Sent>)
    requires forall i :: 0 <= i < |sent| ==> 1 + |sent[i].payload| <= MAX_MSG_LEN
    ensures Parse(Frames(sent)) == Parsed(Bodies(sent), [], None)
    decreases |sent|
  {
    if sent != [] {
      FrameReadsBack(sent[0].msgType, sent[0].payload, Frames(sent[1..]));
      FramesReadBack(sent[1..]);
    }
  }

  /** Sent frames arrive whole however the transport cuts them. */
  lemma SentArrives(sent: seq<Sent>, chunks: seq<seq<byte>>)
    requires forall i :: 0 <= i < |sent| ==> 1 + |sent[i].payload| <= MAX_MSG_LEN
    requires Flatten(chunks) == Frames(sent)
    ensures Run(Read, Open([]), chunks) == Outcome(Open([]), Bodies(sent))
  {
    AnyCutting(chunks);
    FramesReadBack(sent);
  }
}
