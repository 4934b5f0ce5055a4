/** The vote reply on the wire: which flag the candidate reads from what the voter sends. */
module VoteReplies {
  import opened Bytes

  // The reply is a message header of 32 bytes, the granted flag, and 7 bytes of padding. A sender
  // sends some stretch of it as payload; the candidate takes the payload for the whole reply and
  // reads the flag at its place, which may lie behind the bytes that came.

  const HEADER_SIZE: nat := 32
  const RESPONSE_SIZE: nat := 40

  datatype Response = Response(header: seq<byte>, granted: bool, padding: seq<byte>) {
    predicate Valid() {
      |header| == HEADER_SIZE && |padding| == RESPONSE_SIZE - HEADER_SIZE - 1
    }
  }

  function ResponseBytes(r: Response): (b: seq<byte>)
    requires r.Valid()
    ensures |b| == RESPONSE_SIZE && b[HEADER_SIZE] == (if r.granted then 1 else 0)
  {
    r.header + [if r.granted then 1 else 0] + r.padding
  }

  /** The payload is `len` bytes, at least one, of the reply from byte `from` on. */
  datatype Layout = Layout(from: nat, len: nat) {
    predicate Valid() {
      len > 0 && from + len <= RESPONSE_SIZE
    }
  }

  /** Memory from the payload's address on, at least as far as the flag's place. */
  type Memory = m: seq<byte> | |m| > HEADER_SIZE witness seq(33, _ => 0)

  /** The payload, and behind it what the memory happens to hold. */
  function Received(l: Layout, r: Response, behind: Memory): Memory
    requires l.Valid() && r.Valid()
  {
    ResponseBytes(r)[l.from..l.from + l.len] + behind
  }

  function ReadFlag(m: Memory): bool {
    m[HEADER_SIZE] != 0
  }

  /** Whatever else is in the reply and in memory, the flag read is the flag sent. */
  ghost predicate FlagArrives(l: Layout)
    requires l.Valid()
  {
    forall r: Response, behind: Memory :: r.Valid() ==> ReadFlag(Received(l, r, behind)) == r.granted
  }

  /** The payload carries the reply from its first byte to its flag. */
  predicate Carries(l: Layout) {
    l.from == 0 && l.len > HEADER_SIZE
  }

  function Ones(): seq<byte> {
    seq(HEADER_SIZE + 1, _ => 1)
  }

  /** A reply whose padding is not zero. */
  function Padded(granted: bool): (r: Response)
    ensures r.Valid() && r.granted == granted
  {
    Response(seq(HEADER_SIZE, _ => 0), granted, seq(RESPONSE_SIZE - HEADER_SIZE - 1, _ => 1))
  }

  /** If the payload does not carry the reply, every reply may read as granted. */
  lemma MisreadAsGranted(l: Layout, granted: bool)
    requires l.Valid() && !Carries(l)
    ensures ReadFlag(Received(l, Padded(granted), Ones()))
  {
    var payload := ResponseBytes(Padded(granted))[l.from..l.from + l.len];
    var m := Received(l, Padded(granted), Ones());
    if l.len > HEADER_SIZE {
      assert m[HEADER_SIZE] == ResponseBytes(Padded(granted))[l.from + HEADER_SIZE];
    } else {
      assert m[HEADER_SIZE] == Ones()[HEADER_SIZE - l.len];
    }
  }

  /** The flag read is the flag sent exactly when the payload carries the reply. */
  lemma FlagArrivesIff(l: Layout)
    requires l.Valid()
    ensures FlagArrives(l) <==> Carries(l)
  {
    if !Carries(l) {
      MisreadAsGranted(l, false);
      assert !FlagArrives(l);
    }
  }

  /** The voter's handler announces a payload of one byte; then the flag read does not depend on the
      reply at all. */
  lemma AnnouncedFlagIsMemory(from: nat, r: Response, behind: Memory)
    requires from < RESPONSE_SIZE && r.Valid()
    ensures ReadFlag(Received(Layout(from, 1), r, behind)) <==> behind[HEADER_SIZE - 1] != 0
  {
  }
}
