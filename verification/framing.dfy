/** Length-prefixed messages
    and the receive buffer that rebuilds them from chunks. */
module Framing {
  import opened Bytes
  import opened Streams

  const MAGIC: uint32 := 0x494E_5658
  const PROTOCOL_VERSION: int := 0x0100
  const HEADER_SIZE: nat := 16

  // ----- Wire format ----------------------------------------------------------

  function Le16(x: int): (s: seq<byte>)
    requires 0 <= x < 0x1_0000
    ensures |s| == 2
  {
    [x % 256, x / 256]
  }

  datatype Header = Header(magic: uint32, version: int, kind: byte, flags: byte, sequence: uint32, payloadLen: uint32)

  /** What the sender chooses; magic, version and length are filled in when sending. */
  datatype Message = Message(kind: byte, flags: byte, sequence: uint32, payload: seq<byte>)

  /** Lengths are 32-bit on the wire. */
  predicate Sendable(m: Message) {
    |m.payload| < 0x1_0000_0000
  }

  function Encode(m: Message): (s: seq<byte>)
    requires Sendable(m)
    ensures |s| == HEADER_SIZE + |m.payload|
  {
    Le32(MAGIC) + Le16(PROTOCOL_VERSION) + [m.kind, m.flags] + Le32(m.sequence) + Le32(|m.payload|) + m.payload
  }

  function Frames(ms: seq<Message>): seq<seq<byte>>
    requires forall m <- ms :: Sendable(m)
  {
    seq(|ms|, i requires 0 <= i < |ms| => Encode(ms[i]))
  }

  function ParseHeader(s: seq<byte>): Header
    requires |s| >= HEADER_SIZE
  {
    Header(FromLe32(s[0..4]), s[4] as int + 256 * s[5] as int, s[6], s[7], FromLe32(s[8..12]), FromLe32(s[12..16]))
  }

  /** What the receiver makes of the front of its buffer. */
  function FrontOf(s: seq<byte>): (f: Front<Message>)
    ensures f.Complete? ==> HEADER_SIZE <= f.size <= |s|
  {
    if |s| < HEADER_SIZE then Incomplete
    else
      var h := ParseHeader(s);
      var total := HEADER_SIZE + h.payloadLen;
      if h.magic != MAGIC then Garbage
      else if |s| < total then Incomplete
      else Complete(Message(h.kind, h.flags, h.sequence, s[HEADER_SIZE..total]), total)
  }

  type Connection = Conn<byte, Message>

  function Fresh(): Connection {
    Conn(Open, [], [])
  }

  // ----- In place -------------------------------------------------------------

  class NetConnection {
    const recv: array<byte>
    var used: nat
    var state: State
    var delivered: seq<Message>

    ghost predicate Valid()
      reads this
    {
      used <= recv.Length
    }

    ghost function View(): Connection
      requires Valid()
      reads this, recv
    {
      Conn(state, recv[..used], delivered)
    }

    constructor (size: nat)
      ensures Valid() && fresh(recv) && recv.Length == size && View() == Fresh()
    {
      recv := new byte[size];
      used, state, delivered := 0, Open, [];
    }

    /** `bytes` new bytes lie in the buffer behind the `used` ones. */
    method HandleReadCompletion(bytes: nat)
      requires Valid() && state == Open && used + bytes <= recv.Length
      modifies this, recv
      ensures Valid()
      ensures View() == OnRead(FrontOf, old(View()), old(recv[used..used + bytes]))
    {
      if bytes == 0 {
        state := Closed;
        return;
      }
      ghost var begun := Conn(Open, recv[..used] + recv[used..used + bytes], delivered);
      used := used + bytes;
      assert recv[..used] == begun.buffer;
      while used >= HEADER_SIZE
        invariant Valid() && state == Open
        invariant Drain(FrontOf, View()) == Drain(FrontOf, begun)
        decreases used
      {
        var front := ParseFront();
        match front {
          case Garbage =>
            state := Failed;
            return;
          case Incomplete =>
            break;
          case Complete(message, total) =>
            ghost var before := View();
            delivered := delivered + [message];
            Shift(total);
            DrainStep(FrontOf, before, message, total);
        }
      }
    }

    /** Look at the header, then whether its whole message has arrived. */
    method ParseFront() returns (front: Front<Message>)
      requires Valid() && used >= HEADER_SIZE
      ensures front == FrontOf(recv[..used])
    {
      var header := ParseHeader(recv[..used]);
      if header.magic != MAGIC {
        return Garbage;
      }
      var total := HEADER_SIZE + header.payloadLen;
      if used < total {
        return Incomplete;
      }
      assert recv[..used][HEADER_SIZE..total] == recv[HEADER_SIZE..total];
      return Complete(Message(header.kind, header.flags, header.sequence, recv[HEADER_SIZE..total]), total);
    }

    method Shift(total: nat)
      requires Valid() && total <= used
      modifies this`used, recv
      ensures Valid() && used == old(used) - total
      ensures recv[..used] == old(recv[..used])[total..]
    {
      var remaining := used - total;
      forall k | 0 <= k < remaining {
        recv[k] := recv[total + k];
      }
      used := remaining;
    }
  }

  // ----- Chunks do not matter -------------------------------------------------

  lemma FrontIsStable()
    ensures Sound(FrontOf) && Stable(FrontOf)
  {
    forall s, t ensures FrontOf(s).Complete? ==> FrontOf(s + t) == FrontOf(s)
                ensures FrontOf(s).Garbage? ==> FrontOf(s + t).Garbage?
    {
      FrontOfPrefix(s, t);
    }
  }

  lemma FrontOfPrefix(s: seq<byte>, t: seq<byte>)
    ensures FrontOf(s).Complete? ==> FrontOf(s + t) == FrontOf(s)
    ensures FrontOf(s).Garbage? ==> FrontOf(s + t).Garbage?
  {
    if |s| >= HEADER_SIZE {
      assert (s + t)[0..4] == s[0..4] && (s + t)[8..12] == s[8..12] && (s + t)[12..16] == s[12..16];
      var n := HEADER_SIZE + ParseHeader(s).payloadLen;
      if |s| >= n {
        assert (s + t)[HEADER_SIZE..n] == s[HEADER_SIZE..n];
      }
    }
  }

  /** For every byte stream, well formed or not: what is delivered, whether the connection
      fails and what stays in the buffer do not depend on how the stream is cut into chunks. */
  lemma ChunkingIsInvisible(a: seq<seq<byte>>, b: seq<seq<byte>>)
    requires NoneEmpty(a) && NoneEmpty(b) && Concat(a) == Concat(b)
    ensures Sound(FrontOf)
    ensures SameOutcome(OnReads(FrontOf, Fresh(), a), OnReads(FrontOf, Fresh(), b))
  {
    FrontIsStable();
    ReadsAreOneDrain(FrontOf, Fresh(), a);
    ReadsAreOneDrain(FrontOf, Fresh(), b);
  }

  // ----- Messages survive -----------------------------------------------------

  lemma FrontOfEncoded(m: Message, rest: seq<byte>)
    requires Sendable(m)
    ensures FrontOf(Encode(m) + rest) == Complete(m, HEADER_SIZE + |m.payload|)
  {
    var s := Encode(m) + rest;
    Le32RoundTrip(MAGIC);
    Le32RoundTrip(m.sequence);
    Le32RoundTrip(|m.payload|);
    assert s[0..4] == Le32(MAGIC);
    assert s[6] == m.kind && s[7] == m.flags;
    assert s[8..12] == Le32(m.sequence);
    assert s[12..16] == Le32(|m.payload|);
    assert s[16..16 + |m.payload|] == m.payload;
  }

  /** The header sent is the header read, version and length included. */
  lemma HeaderRoundTrip(m: Message, rest: seq<byte>)
    requires Sendable(m)
    ensures ParseHeader(Encode(m) + rest) == Header(0x494E_5658, 0x0100, m.kind, m.flags, m.sequence, |m.payload|)
  {
    var s := Encode(m) + rest;
    Le32RoundTrip(MAGIC);
    Le32RoundTrip(m.sequence);
    Le32RoundTrip(|m.payload|);
    assert s[0..4] == Le32(MAGIC) && s[8..12] == Le32(m.sequence) && s[12..16] == Le32(|m.payload|);
    assert s[4] == Le16(PROTOCOL_VERSION)[0] && s[5] == Le16(PROTOCOL_VERSION)[1];
    assert s[6] == m.kind && s[7] == m.flags;
  }

  /** The start of a message, not yet all of it. */
  predicate Partial(m: Message, tail: seq<byte>)
    requires Sendable(m)
  {
    |tail| < |Encode(m)| && tail == Encode(m)[..|tail|]
  }

  lemma FrontOfPartial(m: Message, tail: seq<byte>)
    requires Sendable(m) && Partial(m, tail)
    ensures FrontOf(tail) == Incomplete
  {
    FrontOfEncoded(m, []);
    var rest := Encode(m)[|tail|..];
    assert tail + rest == Encode(m) + [];
    FrontOfPrefix(tail, rest);
  }

  lemma FramesRecognised(ms: seq<Message>)
    requires forall m <- ms :: Sendable(m)
    ensures Recognised(FrontOf, Frames(ms), ms)
  {
    forall i, rest | 0 <= i < |ms| ensures FrontOf(Frames(ms)[i] + rest) == Complete(ms[i], |Frames(ms)[i]|) {
      FrontOfEncoded(ms[i], rest);
    }
  }

  /** Main result: messages cut into chunks in any way, the last one perhaps still incomplete, are
      delivered exactly once each and in order, and the buffer keeps exactly the incomplete part. */
  lemma MessagesSurvive(ms: seq<Message>, next: Message, tail: seq<byte>, chunks: seq<seq<byte>>)
    requires (forall m <- ms :: Sendable(m)) && Sendable(next) && Partial(next, tail)
    requires NoneEmpty(chunks) && Concat(chunks) == Concat(Frames(ms)) + tail
    ensures Sound(FrontOf)
    ensures OnReads(FrontOf, Fresh(), chunks) == Conn(Open, tail, ms)
  {
    FrontIsStable();
    ReadsAreOneDrain(FrontOf, Fresh(), chunks);
    assert [] + Concat(chunks) == Concat(Frames(ms)) + tail;
    FrontOfPartial(next, tail);
    FramesRecognised(ms);
    FramesAreDelivered(FrontOf, Frames(ms), ms, tail, []);
    assert [] + ms == ms;
  }

  // ----- Foreign bytes --------------------------------------------------------

  /** The four bytes that begin every message. */
  const MAGIC_BYTES: seq<byte> := [0x58, 0x56, 0x4E, 0x49]

  predicate MagicAhead(s: seq<byte>) {
    MAGIC_BYTES <= s
  }

  /** Of a header's length of bytes, the front is garbage exactly if they do not begin with the magic. */
  lemma FrontIsGarbageIff(s: seq<byte>)
    ensures FrontOf(s).Garbage? <==> |s| >= HEADER_SIZE && !MagicAhead(s)
    ensures |s| < HEADER_SIZE ==> FrontOf(s).Incomplete?
  {
    if |s| >= HEADER_SIZE {
      assert s[0..4] == [s[0], s[1], s[2], s[3]];
      assert FromLe32(s[0..4]) == s[0] as int + 256 * s[1] as int + 0x1_0000 * s[2] as int + 0x100_0000 * s[3] as int;
      MagicInBytes(s[0], s[1], s[2], s[3]);
    }
  }

  lemma MagicInBytes(a: byte, b: byte, c: byte, d: byte)
    ensures a as int + 256 * b as int + 0x1_0000 * c as int + 0x100_0000 * d as int == MAGIC
      <==> [a, b, c, d] == MAGIC_BYTES
  {
    assert [a, b, c, d] == MAGIC_BYTES <==> a == 0x58 && b == 0x56 && c == 0x4E && d == 0x49;
  }

  lemma ReadsAreDrained(chunks: seq<seq<byte>>)
    requires NoneEmpty(chunks)
    ensures Sound(FrontOf)
    ensures SameOutcome(OnReads(FrontOf, Fresh(), chunks), Drain(FrontOf, Conn(Open, Concat(chunks), [])))
  {
    FrontIsStable();
    ReadsAreOneDrain(FrontOf, Fresh(), chunks);
    assert [] + Concat(chunks) == Concat(chunks);
  }

  lemma FramesAreDrained(ms: seq<Message>, tail: seq<byte>)
    requires forall m <- ms :: Sendable(m)
    ensures Sound(FrontOf)
    ensures Drain(FrontOf, Conn(Open, Concat(Frames(ms)) + tail, [])) == Drain(FrontOf, Conn(Open, tail, ms))
  {
    FrontIsStable();
    FramesRecognised(ms);
    FramesThenRest(FrontOf, Frames(ms), ms, tail, []);
    assert [] + ms == ms;
  }

  /** Whatever the cutting, the messages are delivered and the bytes behind them decide the rest. */
  lemma MessagesThenBytes(ms: seq<Message>, tail: seq<byte>, chunks: seq<seq<byte>>)
    requires forall m <- ms :: Sendable(m)
    requires NoneEmpty(chunks) && Concat(chunks) == Concat(Frames(ms)) + tail
    ensures Sound(FrontOf)
    ensures SameOutcome(OnReads(FrontOf, Fresh(), chunks), Drain(FrontOf, Conn(Open, tail, ms)))
  {
    ReadsAreDrained(chunks);
    FramesAreDrained(ms, tail);
  }

  /** Draining them: garbage fails at once, an unfinished front waits, a whole message adds to the delivered. */
  lemma DrainByFront(tail: seq<byte>, ms: seq<Message>)
    requires Sound(FrontOf)
    ensures var c := Drain(FrontOf, Conn(Open, tail, ms));
      && (FrontOf(tail).Garbage? ==> c == Conn(Failed, tail, ms))
      && (FrontOf(tail).Incomplete? ==> c == Conn(Open, tail, ms))
      && (FrontOf(tail).Complete? ==> ms < c.delivered)
  {
    if FrontOf(tail).Complete? {
      var (m, size) := (FrontOf(tail).m, FrontOf(tail).size);
      DrainStep(FrontOf, Conn(Open, tail, ms), m, size);
      DrainOnlyAdds(FrontOf, Conn(Open, tail[size..], ms + [m]));
    }
  }

  /** Messages, and then bytes that are no header although long enough for one: under every cutting the
      connection fails with exactly these messages delivered. */
  lemma ForeignBytesFail(ms: seq<Message>, tail: seq<byte>, chunks: seq<seq<byte>>)
    requires (forall m <- ms :: Sendable(m)) && |tail| >= HEADER_SIZE && !MagicAhead(tail)
    requires NoneEmpty(chunks) && Concat(chunks) == Concat(Frames(ms)) + tail
    ensures Sound(FrontOf)
    ensures var c := OnReads(FrontOf, Fresh(), chunks); c.state == Failed && c.delivered == ms
  {
    MessagesThenBytes(ms, tail, chunks);
    FrontIsGarbageIff(tail);
    DrainByFront(tail, ms);
  }

  /** With less than a header behind them, or with the magic ahead, the connection never fails on these: it
      waits with the bytes kept, or delivers more. */
  lemma OtherBytesWait(ms: seq<Message>, tail: seq<byte>, chunks: seq<seq<byte>>)
    requires (forall m <- ms :: Sendable(m)) && (|tail| < HEADER_SIZE || MagicAhead(tail))
    requires NoneEmpty(chunks) && Concat(chunks) == Concat(Frames(ms)) + tail
    ensures Sound(FrontOf)
    ensures var c := OnReads(FrontOf, Fresh(), chunks);
      && ms <= c.delivered && (c.delivered == ms ==> c == Conn(Open, tail, ms))
      && (|tail| < HEADER_SIZE ==> c == Conn(Open, tail, ms))
  {
    MessagesThenBytes(ms, tail, chunks);
    FrontIsGarbageIff(tail);
    DrainByFront(tail, ms);
  }

  /** Main result: after any sendable messages, whatever the cutting, the connection fails on the bytes that
      follow exactly if they are at least a header and do not begin with the magic. */
  lemma FailsOnForeignBytesIff(ms: seq<Message>, tail: seq<byte>, chunks: seq<seq<byte>>)
    requires forall m <- ms :: Sendable(m)
    requires NoneEmpty(chunks) && Concat(chunks) == Concat(Frames(ms)) + tail
    ensures Sound(FrontOf)
    ensures var c := OnReads(FrontOf, Fresh(), chunks);
      c.state == Failed && c.delivered == ms <==> |tail| >= HEADER_SIZE && !MagicAhead(tail)
  {
    if |tail| >= HEADER_SIZE && !MagicAhead(tail) {
      ForeignBytesFail(ms, tail, chunks);
    } else {
      OtherBytesWait(ms, tail, chunks);
    }
  }

  /** A line of another protocol is refused as soon as a header's length of it has come. */
  lemma ForeignLineFails(line: seq<byte>)
    requires |line| >= HEADER_SIZE && line[0] == 'G' as int
    ensures Sound(FrontOf) && OnReads(FrontOf, Fresh(), [line]).state == Failed
  {
    assert Frames([]) == [] && [] + line == line && Concat([line]) == line;
    ForeignBytesFail([], line, [line]);
  }

  /** When the peer closes, the connection is closed and delivers nothing more. */
  lemma PeerCloses(chunks: seq<seq<byte>>)
    ensures Sound(FrontOf)
    ensures var c := OnReads(FrontOf, Fresh(), chunks);
      c.state == Open ==> OnReads(FrontOf, Fresh(), chunks + [[]]) == c.(state := Closed)
  {
    FrontIsStable();
    if OnReads(FrontOf, Fresh(), chunks).state == Open {
      EmptyReadCloses(FrontOf, Fresh(), chunks);
    }
  }

  // ----- Room in the buffer ---------------------------------------------------

  /** Every chunk fits the space left when it is read; reads into a full buffer return nothing. */
  ghost predicate ReadsFit(size: nat, c: Connection, chunks: seq<seq<byte>>)
    requires Sound(FrontOf)
    decreases |chunks|
  {
    chunks == [] || c.state != Open ||
    (|c.buffer| + |chunks[0]| <= size && ReadsFit(size, OnRead(FrontOf, c, chunks[0]), chunks[1..]))
  }

  /** There is room for more as long as the pending message fits the buffer. */
  lemma AlwaysRoom(size: nat, ms: seq<Message>, next: Message, tail: seq<byte>, chunks: seq<seq<byte>>)
    requires (forall m <- ms :: Sendable(m)) && Sendable(next) && Partial(next, tail)
    requires NoneEmpty(chunks) && Concat(chunks) == Concat(Frames(ms)) + tail
    requires HEADER_SIZE + |next.payload| <= size
    ensures Sound(FrontOf)
    ensures |OnReads(FrontOf, Fresh(), chunks).buffer| < size
  {
    MessagesSurvive(ms, next, tail, chunks);
  }

  ghost predicate Receivable(size: nat, m: Message)
    requires Sendable(m) && Sound(FrontOf)
  {
    exists chunks: seq<seq<byte>> :: NoneEmpty(chunks) && Concat(chunks) == Encode(m)
      && ReadsFit(size, Fresh(), chunks) && OnReads(FrontOf, Fresh(), chunks).delivered == [m]
  }

  lemma FittingIsReceivable(size: nat, m: Message)
    requires Sendable(m) && Sound(FrontOf) && HEADER_SIZE + |m.payload| <= size
    ensures Receivable(size, m)
  {
    var e := Encode(m);
    SingleChunk(size, e);
    assert Concat(Frames([m])) + [] == e by {
      assert Frames([m]) == [e];
    }
    MessagesSurvive([m], m, [], [e]);
    assert OnReads(FrontOf, Fresh(), [e]).delivered == [m];
  }

  lemma SingleChunk(size: nat, e: seq<byte>)
    requires Sound(FrontOf) && 0 < |e| <= size
    ensures NoneEmpty([e]) && Concat([e]) == e && ReadsFit(size, Fresh(), [e])
  {
  }

  /** A message can be received, under some cutting into chunks that fit, exactly if it fits the
      buffer: with a longer one the buffer fills up before the message is complete. */
  lemma FitsIffReceivable(size: nat, m: Message)
    requires Sendable(m)
    ensures Sound(FrontOf)
    ensures Receivable(size, m) <==> HEADER_SIZE + |m.payload| <= size
  {
    FrontIsStable();
    if HEADER_SIZE + |m.payload| <= size {
      FittingIsReceivable(size, m);
    } else if Receivable(size, m) {
      var chunks: seq<seq<byte>> :| NoneEmpty(chunks) && Concat(chunks) == Encode(m)
        && ReadsFit(size, Fresh(), chunks) && OnReads(FrontOf, Fresh(), chunks).delivered == [m];
      assert [] + Concat(chunks) == Encode(m);
      TooLong(size, m, [], chunks);
    }
  }

  lemma {:induction false} TooLong(size: nat, m: Message, got: seq<byte>, chunks: seq<seq<byte>>)
    requires Sendable(m) && HEADER_SIZE + |m.payload| > size && NoneEmpty(chunks) && Sound(FrontOf)
    requires |got| <= size && got + Concat(chunks) == Encode(m)
    ensures !ReadsFit(size, Conn(Open, got, []), chunks)
    decreases |chunks|
  {
    if chunks != [] && |got| + |chunks[0]| <= size {
      var b := got + chunks[0];
      assert b + Concat(chunks[1..]) == Encode(m);
      assert Partial(m, b);
      FrontOfPartial(m, b);
      TooLong(size, m, b, chunks[1..]);
    }
  }
}
