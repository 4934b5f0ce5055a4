/** Rebuilding messages from a byte stream,
    for any way of recognising a message at its front. */
module Streams {

  /** What the front of a buffer is: not yet a message, no message at all, or one of some size. */
  datatype Front<+M> = Incomplete | Garbage | Complete(m: M, size: nat)

  datatype State = Open | Closed | Failed

  datatype Conn<B, M> = Conn(state: State, buffer: seq<B>, delivered: seq<M>)

  ghost predicate Sound<B(!new), M>(p: seq<B> -> Front<M>) {
    forall s :: p(s).Complete? ==> 0 < p(s).size <= |s|
  }

  /** Bytes that arrive later do not change what the front was seen to be. */
  ghost predicate Stable<B(!new), M(!new)>(p: seq<B> -> Front<M>) {
    forall s, t {:trigger p(s + t)} ::
      && (p(s).Complete? ==> p(s + t) == p(s))
      && (p(s).Garbage? ==> p(s + t).Garbage?)
  }

  /** Deliver every complete message at the front of the buffer. */
  ghost function Drain<B(!new), M>(p: seq<B> -> Front<M>, c: Conn<B, M>): Conn<B, M>
    requires Sound(p) && c.state == Open
    decreases |c.buffer|
  {
    match p(c.buffer)
    case Incomplete => c
    case Garbage => c.(state := Failed)
    case Complete(m, size) => Drain(p, Conn(Open, c.buffer[size..], c.delivered + [m]))
  }

  lemma DrainStep<B(!new), M>(p: seq<B> -> Front<M>, c: Conn<B, M>, m: M, size: nat)
    requires Sound(p) && c.state == Open && p(c.buffer) == Complete(m, size)
    ensures size <= |c.buffer|
    ensures Drain(p, c) == Drain(p, Conn(Open, c.buffer[size..], c.delivered + [m]))
  {
  }

  /** A completed read: no bytes means the peer has closed. */
  ghost function OnRead<B(!new), M>(p: seq<B> -> Front<M>, c: Conn<B, M>, chunk: seq<B>): Conn<B, M>
    requires Sound(p) && c.state == Open
  {
    if chunk == [] then c.(state := Closed) else Drain(p, Conn(Open, c.buffer + chunk, c.delivered))
  }

  /** Reads are posted only while the connection is open. */
  ghost function OnReads<B(!new), M>(p: seq<B> -> Front<M>, c: Conn<B, M>, chunks: seq<seq<B>>): Conn<B, M>
    requires Sound(p)
    decreases |chunks|
  {
    if chunks == [] || c.state != Open then c else OnReads(p, OnRead(p, c, chunks[0]), chunks[1..])
  }

  function Concat<B>(chunks: seq<seq<B>>): seq<B> {
    if chunks == [] then [] else chunks[0] + Concat(chunks[1..])
  }

  predicate NoneEmpty<B(==)>(chunks: seq<seq<B>>) {
    forall i | 0 <= i < |chunks| :: chunks[i] != []
  }

  /** Equal in what a client can observe. */
  predicate SameOutcome<B(==), M(==)>(c: Conn<B, M>, d: Conn<B, M>) {
    c.state == d.state && c.delivered == d.delivered && (c.state == Open ==> c == d)
  }

  /** Draining, appending and draining again is draining everything at once. */
  lemma {:induction false} DrainAppend<B(!new), M(!new)>(p: seq<B> -> Front<M>, c: Conn<B, M>, more: seq<B>)
    requires Sound(p) && Stable(p) && c.state == Open
    ensures var d := Drain(p, c); var whole := Drain(p, Conn(Open, c.buffer + more, c.delivered));
      if d.state == Open then Drain(p, Conn(Open, d.buffer + more, d.delivered)) == whole
      else whole.state == d.state && whole.delivered == d.delivered
    decreases |c.buffer|
  {
    match p(c.buffer)
    case Incomplete =>
    case Garbage => assert p(c.buffer + more).Garbage?;
    case Complete(m, size) =>
      assert p(c.buffer + more) == p(c.buffer);
      assert (c.buffer + more)[size..] == c.buffer[size..] + more;
      DrainAppend(p, Conn(Open, c.buffer[size..], c.delivered + [m]), more);
  }

  lemma {:induction false} DrainIsDrained<B(!new), M>(p: seq<B> -> Front<M>, c: Conn<B, M>)
    requires Sound(p) && c.state == Open
    ensures Drain(p, c).state == Open ==> Drain(p, Drain(p, c)) == Drain(p, c)
    decreases |c.buffer|
  {
    match p(c.buffer)
    case Incomplete =>
    case Garbage =>
    case Complete(m, size) => DrainIsDrained(p, Conn(Open, c.buffer[size..], c.delivered + [m]));
  }

  /** The outcome of a longer stream after the first chunk of it has been read. */
  lemma OneChunkFirst<B(!new), M(!new)>(p: seq<B> -> Front<M>, c: Conn<B, M>, chunk: seq<B>, more: seq<B>)
    requires Sound(p) && Stable(p) && c.state == Open && chunk != []
    ensures var d := OnRead(p, c, chunk);
      var whole := Drain(p, Conn(Open, c.buffer + (chunk + more), c.delivered));
      if d.state == Open then Drain(p, d) == d && Drain(p, Conn(Open, d.buffer + more, d.delivered)) == whole
      else whole.state == d.state && whole.delivered == d.delivered
  {
    var c1 := Conn(Open, c.buffer + chunk, c.delivered);
    DrainAppend(p, c1, more);
    assert c1.buffer + more == c.buffer + (chunk + more);
    DrainIsDrained(p, c1);
  }

  /** Reading chunk after chunk is draining the whole stream at once. */
  lemma {:induction false} ReadsAreOneDrain<B(!new), M(!new)>(
      p: seq<B> -> Front<M>, c: Conn<B, M>, chunks: seq<seq<B>>)
    requires Sound(p) && Stable(p) && c.state == Open && Drain(p, c) == c && NoneEmpty(chunks)
    ensures SameOutcome(OnReads(p, c, chunks), Drain(p, Conn(Open, c.buffer + Concat(chunks), c.delivered)))
    decreases |chunks|
  {
    if chunks == [] {
      assert c.buffer + [] == c.buffer;
    } else {
      OneChunkFirst(p, c, chunks[0], Concat(chunks[1..]));
      if OnRead(p, c, chunks[0]).state == Open {
        ReadsAreOneDrain(p, OnRead(p, c, chunks[0]), chunks[1..]);
      }
    }
  }

  /** Each frame is recognised as its message, whatever follows it. */
  ghost predicate Recognised<B(!new), M>(p: seq<B> -> Front<M>, frames: seq<seq<B>>, ms: seq<M>) {
    && |frames| == |ms|
    && forall i, rest {:trigger frames[i] + rest} | 0 <= i < |ms| ::
         p(frames[i] + rest) == Complete(ms[i], |frames[i]|)
  }

  lemma FirstFrame<B(!new), M>(p: seq<B> -> Front<M>, frame: seq<B>, m: M, more: seq<B>, done: seq<M>)
    requires Sound(p) && p(frame + more) == Complete(m, |frame|)
    ensures Drain(p, Conn(Open, frame + more, done)) == Drain(p, Conn(Open, more, done + [m]))
  {
    assert (frame + more)[|frame|..] == more;
    DrainStep(p, Conn(Open, frame + more, done), m, |frame|);
  }

  /** Frames and then anything: the frames are delivered, and what follows decides the rest. */
  lemma {:induction false} FramesThenRest<B(!new), M>(
      p: seq<B> -> Front<M>, frames: seq<seq<B>>, ms: seq<M>, rest: seq<B>, done: seq<M>)
    requires Sound(p) && Recognised(p, frames, ms)
    ensures Drain(p, Conn(Open, Concat(frames) + rest, done)) == Drain(p, Conn(Open, rest, done + ms))
    decreases |ms|
  {
    if ms == [] {
      assert Concat(frames) + rest == rest && done + ms == done;
    } else {
      FirstFrame(p, frames[0], ms[0], Concat(frames[1..]) + rest, done);
      FramesThenRest(p, frames[1..], ms[1..], rest, done + [ms[0]]);
      FrontOfFrames(frames, ms, rest, done);
    }
  }

  lemma FrontOfFrames<B, M>(frames: seq<seq<B>>, ms: seq<M>, rest: seq<B>, done: seq<M>)
    requires frames != [] && ms != []
    ensures Concat(frames) + rest == frames[0] + (Concat(frames[1..]) + rest)
    ensures (done + [ms[0]]) + ms[1..] == done + ms
  {
  }

  lemma FramesAreDelivered<B(!new), M>(
      p: seq<B> -> Front<M>, frames: seq<seq<B>>, ms: seq<M>, tail: seq<B>, done: seq<M>)
    requires Sound(p) && p(tail).Incomplete? && Recognised(p, frames, ms)
    ensures Drain(p, Conn(Open, Concat(frames) + tail, done)) == Conn(Open, tail, done + ms)
  {
    FramesThenRest(p, frames, ms, tail, done);
  }

  /** What is delivered stays delivered. */
  lemma {:induction false} DrainOnlyAdds<B(!new), M>(p: seq<B> -> Front<M>, c: Conn<B, M>)
    requires Sound(p) && c.state == Open
    ensures c.delivered <= Drain(p, c).delivered
    decreases |c.buffer|
  {
    match p(c.buffer)
    case Incomplete =>
    case Garbage =>
    case Complete(m, size) =>
      var d := Conn(Open, c.buffer[size..], c.delivered + [m]);
      DrainOnlyAdds(p, d);
      assert c.delivered <= d.delivered <= Drain(p, d).delivered;
  }

  /** A read without bytes closes the connection and delivers nothing. */
  lemma {:induction false} EmptyReadCloses<B(!new), M>(p: seq<B> -> Front<M>, c: Conn<B, M>, chunks: seq<seq<B>>)
    requires Sound(p) && OnReads(p, c, chunks).state == Open
    ensures OnReads(p, c, chunks + [[]]) == OnReads(p, c, chunks).(state := Closed)
    decreases |chunks|
  {
    if chunks == [] {
      assert (chunks + [[]])[1..] == [];
    } else {
      assert (chunks + [[]])[1..] == chunks[1..] + [[]];
      EmptyReadCloses(p, OnRead(p, c, chunks[0]), chunks[1..]);
    }
  }
}
