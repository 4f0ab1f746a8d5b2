/** The sending half of the DTLS handshake transport: a flight of messages cut into records and packed into datagrams. */
module DtlsSender {
  import opened Bytes
  import opened DtlsFragment

  const RECORD_HEADER := 13    // DTLS1_RT_HEADER_LENGTH
  const MIN_MTU := 256 - 28
  const DEFAULT_MTU := 1500 - 28

  datatype Outgoing = Handshake(data: seq<byte>, epoch: nat) | ChangeCipherSpec(epoch: nat)

  /** A sealed record: what was sealed, and how many bytes it takes on the wire. */
  datatype Record = Record(epoch: nat, isCcs: bool, plaintext: seq<byte>, wireLen: nat)

  /** One fragment of a message: len bytes of its body from off on, behind a header that describes the whole message. */
  function Piece(typ: byte, seqNo: nat, body: seq<byte>, off: nat, len: nat): (bs: seq<byte>)
    requires seqNo < TWO_16 && |body| < MAX_BODY && off + len <= |body|
  {
    HeaderBytes(Header(typ, |body|, seqNo, off, len)) + body[off..off + len]
  }

  /** A message as it is hashed: a single fragment. */
  function RawMessage(typ: byte, seqNo: nat, body: seq<byte>): (raw: seq<byte>)
    requires seqNo < TWO_16 && |body| < MAX_BODY
  {
    HeaderBytes(Header(typ, |body|, seqNo, 0, |body|)) + body
  }

  /** What seal_next_message reads out of a stored message: a single fragment and nothing behind it. */
  function Contents(data: seq<byte>): Option<(Header, seq<byte>)> {
    match ParseFragment(data)
    case Fail => None
    case Got(f, n) =>
      if f.0.fragOff == 0 && f.0.msgLen == |f.1| && n == |data| then Some(f) else None
  }

  lemma RawContents(typ: byte, seqNo: nat, body: seq<byte>)
    requires seqNo < TWO_16 && |body| < MAX_BODY
    ensures Contents(RawMessage(typ, seqNo, body)) == Some((Header(typ, |body|, seqNo, 0, |body|), body))
  {
    ParseRoundTrip(Header(typ, |body|, seqNo, 0, |body|), body, []);
    assert RawMessage(typ, seqNo, body) + [] == RawMessage(typ, seqNo, body);
  }

  function BodyOf(m: Outgoing): seq<byte> {
    match m
    case ChangeCipherSpec(_) => []
    case Handshake(data, _) => match Contents(data) case None => [] case Some(f) => f.1
  }

  // ----- Tiling -----

  datatype Position = Position(written: nat, offset: nat)

  /** The position after the next record, None when the record is not the next piece of the flight: a whole
      ChangeCipherSpec, or the fragment that starts where the last one ended and is not empty unless the body is. */
  function Follow(ms: seq<Outgoing>, p: Position, r: Record): Option<Position> {
    if p.written >= |ms| || r.epoch != ms[p.written].epoch then None
    else
      var m := ms[p.written];
      if m.ChangeCipherSpec? then
        if r.isCcs && r.plaintext == [1] && p.offset == 0 then Some(Position(p.written + 1, 0)) else None
      else if Contents(m.data).None? || r.isCcs || |r.plaintext| < HEADER_LENGTH then None
      else
        var (h, body) := Contents(m.data).value;
        var len := |r.plaintext| - HEADER_LENGTH;
        if p.offset + len > |body| || r.plaintext != Piece(h.typ, h.seqNo, body, p.offset, len) then None
        else if p.offset + len == |body| then Some(Position(p.written + 1, 0))
        else if len > 0 then Some(Position(p.written, p.offset + len))
        else None
  }

  /** The position after a sequence of records that are exactly the next pieces of the flight. */
  function FollowAll(ms: seq<Outgoing>, p: Position, rs: seq<Record>): Option<Position>
    decreases |rs|
  {
    if rs == [] then Some(p)
    else
      var q := Follow(ms, p, rs[0]);
      if q.None? then None else FollowAll(ms, q.value, rs[1..])
  }

  lemma FollowNone(ms: seq<Outgoing>, p: Position)
    ensures FollowAll(ms, p, []) == Some(p)
  {
  }

  lemma {:induction false} FollowConcat(ms: seq<Outgoing>, p: Position, a: seq<Record>, b: seq<Record>)
    requires FollowAll(ms, p, a).Some?
    ensures FollowAll(ms, p, a + b) == FollowAll(ms, FollowAll(ms, p, a).value, b)
    decreases |a|
  {
    if a == [] {
      assert a + b == b;
    } else {
      assert (a + b)[1..] == a[1..] + b;
      FollowConcat(ms, Follow(ms, p, a[0]).value, a[1..], b);
    }
  }

  /** The body bytes a record carries. */
  function Carried(r: Record): seq<byte> {
    if r.isCcs || |r.plaintext| < HEADER_LENGTH then [] else r.plaintext[HEADER_LENGTH..]
  }

  function AllCarried(rs: seq<Record>): seq<byte> {
    if rs == [] then [] else Carried(rs[0]) + AllCarried(rs[1..])
  }

  /** The bodies of a flight, a ChangeCipherSpec having none. */
  function Bodies(ms: seq<Outgoing>): (bs: seq<seq<byte>>)
    ensures |bs| == |ms| && forall i | 0 <= i < |ms| :: bs[i] == BodyOf(ms[i])
  {
    seq(|ms|, i requires 0 <= i < |ms| => BodyOf(ms[i]))
  }

  function Flatten(bs: seq<seq<byte>>): seq<byte> {
    if bs == [] then [] else bs[0] + Flatten(bs[1..])
  }

  /** The body bytes from a position on. */
  function Remaining(bs: seq<seq<byte>>, p: Position): seq<byte> {
    if p.written >= |bs| then []
    else (if p.offset <= |bs[p.written]| then bs[p.written][p.offset..] else []) + Flatten(bs[p.written + 1..])
  }

  /** A chunk is what stands at a position, and the next position is behind it. */
  predicate Takes(bs: seq<seq<byte>>, p: Position, chunk: seq<byte>, q: Position) {
    && p.written < |bs| && p.offset + |chunk| <= |bs[p.written]|
    && chunk == bs[p.written][p.offset..p.offset + |chunk|]
    && (q == Position(p.written, p.offset + |chunk|)
        || (q == Position(p.written + 1, 0) && p.offset + |chunk| == |bs[p.written]|))
  }

  lemma TakesRemaining(bs: seq<seq<byte>>, p: Position, chunk: seq<byte>, q: Position)
    requires Takes(bs, p, chunk, q)
    ensures Remaining(bs, p) == chunk + Remaining(bs, q)
  {
    var b, tail := bs[p.written], Flatten(bs[p.written + 1..]);
    ChunkFirst(b, p.offset, |chunk|, tail);
    if q.written != p.written {
      NextStart(bs, q.written);
      assert b[p.offset + |chunk|..] + tail == tail;
    }
  }

  lemma ChunkFirst(b: seq<byte>, off: nat, len: nat, tail: seq<byte>)
    requires off + len <= |b|
    ensures b[off..] + tail == b[off..off + len] + (b[off + len..] + tail)
  {
    assert b[off..] == b[off..off + len] + b[off + len..];
  }

  lemma NextStart(bs: seq<seq<byte>>, i: nat)
    requires i <= |bs|
    ensures Remaining(bs, Position(i, 0)) == Flatten(bs[i..])
  {
    if i < |bs| {
      assert bs[i..][1..] == bs[i + 1..] && bs[i][0..] == bs[i];
    }
  }

  lemma FollowTakes(ms: seq<Outgoing>, p: Position, r: Record)
    requires Follow(ms, p, r).Some?
    ensures Takes(Bodies(ms), p, Carried(r), Follow(ms, p, r).value)
  {
  }

  /** The fragments of a complete pass carry the bodies of the flight's messages exactly, in order: no gap, no overlap. */
  lemma {:induction false} CompletePassTiles(ms: seq<Outgoing>, bs: seq<seq<byte>>, p: Position, rs: seq<Record>)
    requires bs == Bodies(ms)
    requires FollowAll(ms, p, rs) == Some(Position(|ms|, 0))
    ensures AllCarried(rs) == Remaining(bs, p)
    decreases |rs|
  {
    if rs != [] {
      var q := Follow(ms, p, rs[0]).value;
      FollowTakes(ms, p, rs[0]);
      TakesRemaining(bs, p, Carried(rs[0]), q);
      CompletePassTiles(ms, bs, q, rs[1..]);
    }
  }

  // ----- Packing -----

  function WireLen(rs: seq<Record>): nat {
    if rs == [] then 0 else rs[0].wireLen + WireLen(rs[1..])
  }

  /** The records of a sequence of datagrams. */
  function Records(datagrams: seq<seq<Record>>): seq<Record> {
    if datagrams == [] then [] else datagrams[0] + Records(datagrams[1..])
  }

  lemma RecordsCons(d: seq<Record>, ds: seq<seq<Record>>)
    ensures Records([d] + ds) == d + Records(ds)
  {
    assert ([d] + ds)[1..] == ds;
  }

  lemma {:induction false} FollowPrefix(ms: seq<Outgoing>, p: Position, a: seq<Record>, b: seq<Record>)
    requires FollowAll(ms, p, a + b).Some?
    ensures FollowAll(ms, p, a).Some?
    decreases |a|
  {
    if a != [] {
      assert (a + b)[1..] == a[1..] + b;
      FollowPrefix(ms, Follow(ms, p, a[0]).value, a[1..], b);
    }
  }

  /** A packet moves the position on: a message further, or further into the same message. */
  lemma {:induction false} Advances(ms: seq<Outgoing>, p: Position, rs: seq<Record>)
    requires FollowAll(ms, p, rs).Some?
    ensures var q := FollowAll(ms, p, rs).value;
            q.written > p.written || (q.written == p.written && q.offset >= p.offset)
    ensures rs != [] ==> FollowAll(ms, p, rs).value != p
    decreases |rs|
  {
    hide BodyOf, Contents, Piece;
    if rs != [] {
      Advances(ms, Follow(ms, p, rs[0]).value, rs[1..]);
    }
  }

  // ----- What may be on the wire -----

  /** A message as the handshake layer added it; its place in the history is its sequence number until that wraps. */
  datatype Sent = Sent(typ: byte, body: seq<byte>)

  predicate IsRaw(added: seq<Sent>, k: nat, data: seq<byte>) {
    && k < |added| && |added[k].body| < MAX_BODY
    && data == RawMessage(added[k].typ, k % TWO_16, added[k].body)
  }

  predicate IsPiece(added: seq<Sent>, k: nat, off: nat, plaintext: seq<byte>) {
    && k < |added| && |added[k].body| < MAX_BODY && |plaintext| >= HEADER_LENGTH
    && off + |plaintext| - HEADER_LENGTH <= |added[k].body|
    && plaintext == Piece(added[k].typ, k % TWO_16, added[k].body, off, |plaintext| - HEADER_LENGTH)
  }

  /** The message was added at some time. */
  ghost predicate Honest(added: seq<Sent>, m: Outgoing) {
    m.Handshake? ==> exists k: nat :: IsRaw(added, k, m.data)
  }

  /** The record is a ChangeCipherSpec or a piece of a message that was added at some time. */
  ghost predicate HonestRecord(added: seq<Sent>, r: Record) {
    !r.isCcs ==> exists k: nat, off: nat :: IsPiece(added, k, off, r.plaintext)
  }

  lemma StillHonest(added: seq<Sent>, more: seq<Sent>)
    ensures forall m :: Honest(added, m) ==> Honest(added + more, m)
    ensures forall r :: HonestRecord(added, r) ==> HonestRecord(added + more, r)
  {
    forall m | Honest(added, m) ensures Honest(added + more, m) {
      if m.Handshake? {
        var k: nat :| IsRaw(added, k, m.data);
        assert IsRaw(added + more, k, m.data);
      }
    }
    forall r | HonestRecord(added, r) ensures HonestRecord(added + more, r) {
      if !r.isCcs {
        var k: nat, off: nat :| IsPiece(added, k, off, r.plaintext);
        assert IsPiece(added + more, k, off, r.plaintext);
      }
    }
  }

  /** Whatever follows in a flight of honest messages is an honest record. */
  lemma FollowHonest(added: seq<Sent>, ms: seq<Outgoing>, p: Position, r: Record)
    requires Follow(ms, p, r).Some? && Honest(added, ms[p.written])
    ensures HonestRecord(added, r)
  {
    if ms[p.written].Handshake? {
      var k: nat :| IsRaw(added, k, ms[p.written].data);
      RawContents(added[k].typ, k % TWO_16, added[k].body);
      assert IsPiece(added, k, p.offset, r.plaintext);
    }
  }

  lemma {:induction false} AllFollowHonest(added: seq<Sent>, ms: seq<Outgoing>, p: Position, rs: seq<Record>)
    requires FollowAll(ms, p, rs).Some? && forall i | 0 <= i < |ms| :: Honest(added, ms[i])
    ensures forall r | r in rs :: HonestRecord(added, r)
    decreases |rs|
  {
    hide Honest, HonestRecord;
    if rs != [] {
      FollowHonest(added, ms, p, rs[0]);
      AllFollowHonest(added, ms, Follow(ms, p, rs[0]).value, rs[1..]);
    }
  }
}
