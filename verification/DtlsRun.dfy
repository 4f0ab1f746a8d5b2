/** A DTLS sender and receiver joined by a network that loses, reorders and repeats datagrams. */
module DtlsRun {
  import opened Bytes
  import opened DtlsFragment
  import opened DtlsSender
  import DtlsFlight
  import R = DtlsReceiver

  /** What is under reassembly is what was added: the same header, and at every position received the same byte. */
  predicate Agrees(added: seq<Sent>, p: Partial) {
    && p.seqNo < |added|
    && p.typ == added[p.seqNo].typ && p.msgLen == |added[p.seqNo].body|
    && forall k | k in p.got :: k < |added[p.seqNo].body| && p.got[k] == added[p.seqNo].body[k]
  }

  predicate AllAgree(added: seq<Sent>, st: R.State) {
    && R.InWindow(st)
    && forall i | 0 <= i < FLIGHT && st.ring[i].Some? :: Agrees(added, st.ring[i].value)
  }

  function PieceHeader(added: seq<Sent>, k: nat, off: nat, len: nat): (h: Header)
    requires k < |added|
  {
    Header(added[k].typ, |added[k].body|, k, off, len)
  }

  lemma {:induction false} AcceptAgrees(added: seq<Sent>, p: Partial, off: nat, len: nat)
    requires Agrees(added, p) && off + len <= p.msgLen
    ensures Agrees(added, p.(got := p.got + At(off, added[p.seqNo].body[off..off + len])))
  {
  }

  /** A piece of an added message leaves every slot agreeing with what was added. */
  lemma FragmentAgrees(added: seq<Sent>, st: R.State, k: nat, off: nat, len: nat, maxLen: nat, encrypted: bool)
    requires AllAgree(added, st) && k < |added| <= TWO_16 && off + len <= |added[k].body| < MAX_BODY
    ensures var r := R.OpenFragment(st, PieceHeader(added, k, off, len), added[k].body[off..off + len], maxLen, encrypted);
            r.Some? ==> AllAgree(added, r.value) && r.value.readSeq == st.readSeq
  {
    var h, body := PieceHeader(added, k, off, len), added[k].body[off..off + len];
    R.OpenFragmentInWindow(st, h, body, maxLen, encrypted);
    var p := R.Incoming(st, h);
    if p.Some? {
      AcceptAgrees(added, p.value, off, len);
    }
  }

  /** An honest fragment is refused exactly when it is longer than allowed, comes under encryption out of turn, or is
      seven messages ahead, the one number that is neither dropped as future nor inside the window. */
  lemma FragmentRefused(added: seq<Sent>, st: R.State, k: nat, off: nat, len: nat, maxLen: nat, encrypted: bool)
    requires AllAgree(added, st) && k < |added| <= TWO_16 && off + len <= |added[k].body| < MAX_BODY
    ensures var r := R.OpenFragment(st, PieceHeader(added, k, off, len), added[k].body[off..off + len], maxLen, encrypted);
            r.None? <==> |added[k].body| > maxLen || (encrypted && k != st.readSeq) || k == st.readSeq + FLIGHT
  {
  }

  /** The plaintext of an honest record holds one fragment. */
  lemma RecordIsFragment(
    added: seq<Sent>, st: R.State, k: nat, off: nat, plaintext: seq<byte>, maxLen: nat, encrypted: bool)
    requires |st.ring| == FLIGHT && |added| <= TWO_16 && IsPiece(added, k, off, plaintext)
    ensures var len := |plaintext| - HEADER_LENGTH;
            R.OpenRecord(st, plaintext, maxLen, encrypted)
            == R.OpenFragment(st, PieceHeader(added, k, off, len), added[k].body[off..off + len], maxLen, encrypted)
  {
    hide R.OpenFragment, HeaderBytes, ParseFragment;
    var len := |plaintext| - HEADER_LENGTH;
    ParseRoundTrip(PieceHeader(added, k, off, len), added[k].body[off..off + len], []);
    assert plaintext + [] == plaintext && plaintext[|plaintext|..] == [];
  }

  lemma RecordAgrees(added: seq<Sent>, st: R.State, plaintext: seq<byte>, maxLen: nat, encrypted: bool)
    requires AllAgree(added, st) && |added| <= TWO_16
    requires exists k: nat, off: nat :: IsPiece(added, k, off, plaintext)
    ensures var r := R.OpenRecord(st, plaintext, maxLen, encrypted);
            r.Some? ==> AllAgree(added, r.value) && r.value.readSeq == st.readSeq
  {
    hide R.OpenFragment, R.OpenRecord, AllAgree;
    var k: nat, off: nat :| IsPiece(added, k, off, plaintext);
    assert R.InWindow(st) by { AgreeInWindow(added, st); }
    RecordIsFragment(added, st, k, off, plaintext, maxLen, encrypted);
    FragmentAgrees(added, st, k, off, |plaintext| - HEADER_LENGTH, maxLen, encrypted);
  }

  lemma AgreeInWindow(added: seq<Sent>, st: R.State)
    requires AllAgree(added, st)
    ensures R.InWindow(st)
  {
  }

  /** A complete message is, byte for byte, the unfragmented message the sender added and hashed. */
  lemma MessageIsRaw(added: seq<Sent>, st: R.State)
    requires AllAgree(added, st) && |added| <= TWO_16 && R.Message(st).Some?
    ensures IsRaw(added, st.readSeq, R.Message(st).value)
  {
    hide HeaderBytes;
    var p := st.ring[st.readSeq % FLIGHT].value;
    R.SameSlotSameMessage(p.seqNo, st.readSeq, st.readSeq);
    var body := added[p.seqNo].body;
    forall k | 0 <= k < |body| ensures R.Bodies(p)[k] == body[k] {
      assert k in Positions(0, p.msgLen);
    }
    assert R.Bodies(p) == body;
  }

  lemma MoreAgree(added: seq<Sent>, s: Sent, st: R.State)
    requires AllAgree(added, st)
    ensures AllAgree(added + [s], st)
  {
    forall i | 0 <= i < FLIGHT && st.ring[i].Some? ensures Agrees(added + [s], st.ring[i].value) {
      assert Agrees(added, st.ring[i].value);
    }
  }

  lemma TakenAgrees(added: seq<Sent>, st: R.State)
    requires AllAgree(added, st) && st.readSeq + 1 < TWO_16
    ensures AllAgree(added, R.Advance(st))
  {
    R.AdvanceInWindow(st);
  }

  // ----- Nothing is lost once every byte has arrived -----

  datatype Span = Span(off: nat, len: nat)

  predicate InBody(body: seq<byte>, s: Span) {
    s.off + s.len <= |body|
  }

  /** Pieces of one message, delivered in some order and perhaps more than once. */
  function OpenPieces(added: seq<Sent>, st: R.State, k: nat, ps: seq<Span>, maxLen: nat, encrypted: bool): Option<R.State>
    requires |st.ring| == FLIGHT && k < |added|
    requires forall p | p in ps :: InBody(added[k].body, p)
    decreases |ps|
  {
    if ps == [] then Some(st)
    else
      var (off, len) := (ps[0].off, ps[0].len);
      assert InBody(added[k].body, ps[0]);
      var r := R.OpenFragment(st, PieceHeader(added, k, off, len), added[k].body[off..off + len], maxLen, encrypted);
      if r.None? then None else OpenPieces(added, r.value, k, ps[1..], maxLen, encrypted)
  }

  function Got(st: R.State): set<nat>
    requires |st.ring| == FLIGHT
  {
    var p := st.ring[st.readSeq % FLIGHT];
    if p.None? then {} else p.value.got.Keys
  }

  lemma PieceArrives(added: seq<Sent>, st: R.State, s: Span, maxLen: nat, encrypted: bool)
    requires AllAgree(added, st) && st.readSeq < |added| <= TWO_16
    requires InBody(added[st.readSeq].body, s) && |added[st.readSeq].body| <= maxLen && |added[st.readSeq].body| < MAX_BODY
    ensures var k := st.readSeq;
            var r := R.OpenFragment(st, PieceHeader(added, k, s.off, s.len), added[k].body[s.off..s.off + s.len],
                                    maxLen, encrypted);
            && r.Some? && AllAgree(added, r.value) && r.value.readSeq == k && r.value.ring[k % FLIGHT].Some?
            && Got(r.value) >= Got(st) + Positions(s.off, s.off + s.len)
  {
    FragmentAgrees(added, st, st.readSeq, s.off, s.len, maxLen, encrypted);
    FragmentRefused(added, st, st.readSeq, s.off, s.len, maxLen, encrypted);
  }

  predicate Covers(ps: seq<Span>, i: nat) {
    exists j | 0 <= j < |ps| :: ps[j].off <= i < ps[j].off + ps[j].len
  }

  lemma {:induction false} PiecesArrive(added: seq<Sent>, st: R.State, ps: seq<Span>, maxLen: nat, encrypted: bool)
    requires AllAgree(added, st) && st.readSeq < |added| <= TWO_16
    requires |added[st.readSeq].body| <= maxLen && |added[st.readSeq].body| < MAX_BODY
    requires forall p | p in ps :: InBody(added[st.readSeq].body, p)
    ensures var r := OpenPieces(added, st, st.readSeq, ps, maxLen, encrypted);
            && r.Some? && AllAgree(added, r.value) && r.value.readSeq == st.readSeq
            && Got(r.value) >= Got(st) && (forall i: nat | Covers(ps, i) :: i in Got(r.value))
            && (ps != [] || st.ring[st.readSeq % FLIGHT].Some? ==> r.value.ring[st.readSeq % FLIGHT].Some?)
    decreases |ps|
  {
    hide R.OpenFragment, AllAgree;
    if ps != [] {
      var k, s := st.readSeq, ps[0];
      AgreeInWindow(added, st);
      PieceArrives(added, st, s, maxLen, encrypted);
      var st1 := R.OpenFragment(st, PieceHeader(added, k, s.off, s.len), added[k].body[s.off..s.off + s.len],
                                maxLen, encrypted).value;
      AgreeInWindow(added, st1);
      PiecesArrive(added, st1, ps[1..], maxLen, encrypted);
      var r := OpenPieces(added, st1, k, ps[1..], maxLen, encrypted).value;
      AgreeInWindow(added, r);
      forall i: nat | Covers(ps, i) ensures i in Got(r) {
        var j :| 0 <= j < |ps| && ps[j].off <= i < ps[j].off + ps[j].len;
        if j > 0 {
          assert ps[1..][j - 1] == ps[j];
          assert Covers(ps[1..], i);
        } else {
          assert i in Positions(s.off, s.off + s.len);
        }
      }
    }
  }

  /** The next message is complete as soon as pieces that cover its body have arrived, in any order and repeated. */
  lemma CoveredIsComplete(added: seq<Sent>, st: R.State, ps: seq<Span>, maxLen: nat, encrypted: bool)
    requires AllAgree(added, st) && st.readSeq < |added| <= TWO_16
    requires |added[st.readSeq].body| <= maxLen && |added[st.readSeq].body| < MAX_BODY
    requires forall p | p in ps :: InBody(added[st.readSeq].body, p)
    requires ps != [] && forall i | 0 <= i < |added[st.readSeq].body| :: Covers(ps, i)
    ensures var r := OpenPieces(added, st, st.readSeq, ps, maxLen, encrypted);
            r.Some? && R.InWindow(r.value) && R.Message(r.value).Some?
              && IsRaw(added, st.readSeq, R.Message(r.value).value)
  {
    hide R.OpenFragment, OpenPieces, HeaderBytes, IsRaw;
    PiecesArrive(added, st, ps, maxLen, encrypted);
    var r := OpenPieces(added, st, st.readSeq, ps, maxLen, encrypted).value;
    var p := r.ring[st.readSeq % FLIGHT].value;
    R.SameSlotSameMessage(p.seqNo, st.readSeq, st.readSeq);
    assert p.got.Keys == Positions(0, p.msgLen);
    MessageIsRaw(added, r);
  }

  // ----- Whole runs -----

  /** What can happen, in any order: the sender adds, flushes or sends again under any MTU; the network hands over any
      record of any datagram ever sent; the receiver takes the next message. */
  datatype Event =
    | Add(typ: byte, body: seq<byte>)
    | AddCcs
    | KeyChange
    | SetMtu(mtu: nat)
    | Flush(query: int, noQuery: bool, flushes: bool)
    | Resend(query: int, noQuery: bool, flushes: bool)
    | Deliver(datagram: nat, index: nat, maxLen: nat, encrypted: bool)
    | Take

  predicate Delivered(added: seq<Sent>, raws: seq<seq<byte>>) {
    forall i | 0 <= i < |raws| :: IsRaw(added, i, raws[i])
  }

  lemma StillDelivered(added: seq<Sent>, s: Sent, raws: seq<seq<byte>>)
    requires Delivered(added, raws)
    ensures Delivered(added + [s], raws)
  {
    forall i | 0 <= i < |raws| ensures IsRaw(added + [s], i, raws[i]) {
      assert IsRaw(added, i, raws[i]);
    }
  }

  function Adds(events: seq<Event>): nat {
    if events == [] then 0 else (if events[0].Add? then 1 else 0) + Adds(events[1..])
  }

  /** The two ends of a connection and what the receiving end has handed up. */
  class Connection {
    const flight: DtlsFlight.Flight
    const receiver: R.Receiver
    var delivered: seq<seq<byte>>
    var failed: bool

    ghost predicate Valid()
      reads this, flight, receiver, receiver.Repr
    {
      && this !in receiver.Repr && flight !in receiver.Repr
      && flight.Valid()
      && |flight.added| < TWO_16
      && Delivered(flight.added, delivered)
      && (!failed ==> receiver.Valid() && Safe())
    }

    ghost predicate Safe()
      reads this, flight, receiver, receiver.Repr
    {
      && AllAgree(flight.added, receiver.View())
      && receiver.readSeq == |delivered|
    }

    constructor (flight: DtlsFlight.Flight)
      requires flight.Valid() && flight.added == []
      ensures Valid() && this.flight == flight && fresh(receiver) && fresh(receiver.Repr) && delivered == []
    {
      this.flight := flight;
      receiver := new R.Receiver();
      delivered, failed := [], false;
    }

    method Add(typ: byte, body: seq<byte>)
      requires Valid() && |flight.added| + 1 < TWO_16
      modifies flight
      ensures Valid() && |flight.added| <= |old(flight.added)| + 1
    {
      hide AllAgree, Delivered, WireLen, IsRaw, HonestRecord, Honest;
      var _ := flight.AddMessage(typ, body);
      if flight.added != old(flight.added) {
        StillDelivered(old(flight.added), Sent(typ, body), delivered);
        if !failed {
          MoreAgree(old(flight.added), Sent(typ, body), receiver.View());
        }
      }
    }

    /** Any record ever sent arrives: a ChangeCipherSpec is not for the handshake, a fragment is opened. */
    method Deliver(datagram: nat, index: nat, maxLen: nat, encrypted: bool)
      requires Valid() && !failed && datagram < |flight.wire| && index < |flight.wire[datagram]|
      modifies `failed, receiver.Repr
      ensures Valid() && fresh(receiver.Repr - old(receiver.Repr))
    {
      hide AllAgree, Delivered, WireLen, IsRaw, R.OpenRecord, IsPiece;
      var record := flight.wire[datagram][index];
      assert flight.wire[datagram] in flight.wire && record in flight.wire[datagram];
      assert HonestRecord(flight.added, record);
      if record.isCcs {
        return;
      }
      RecordAgrees(flight.added, receiver.View(), record.plaintext, maxLen, encrypted);
      var ok := receiver.OpenHandshake(record.plaintext, maxLen, encrypted);
      failed := !ok;
    }

    /** The handshake takes the next message, when it is complete. */
    method Take()
      requires Valid() && !failed
      modifies `delivered, receiver, receiver.ring
      ensures Valid() && receiver.Repr == old(receiver.Repr)
      ensures delivered == old(delivered) || |delivered| == |old(delivered)| + 1
      ensures old(delivered) <= delivered
    {
      hide IsRaw, HonestRecord, Honest, AllAgree, R.InWindow, R.Message;
      var ok, raw := receiver.GetMessage();
      if !ok {
        return;
      }
      MessageIsRaw(flight.added, receiver.View());
      RawInHistory(flight.added, receiver.readSeq, raw);
      TakenAgrees(flight.added, receiver.View());
      receiver.NextMessage();
      delivered := delivered + [raw];
    }

    method Step(e: Event)
      requires Valid() && (e.Add? ==> |flight.added| + 1 < TWO_16)
      modifies this, flight, receiver.Repr
      ensures Valid() && fresh(receiver.Repr - old(receiver.Repr))
      ensures |flight.added| <= |old(flight.added)| + if e.Add? then 1 else 0
      ensures old(delivered) <= delivered
    {
      hide IsRaw, HonestRecord, Honest, AllAgree, R.InWindow, WireLen, FollowAll, Records, BodyOf, Delivered;
      match e
      case Add(typ, body) => Add(typ, body);
      case AddCcs => var _ := flight.AddChangeCipherSpec();
      case KeyChange => flight.NextEpoch();
      case SetMtu(mtu) => var _ := flight.SetMtu(mtu);
      case Flush(query, noQuery, flushes) => var _, _ := flight.Flush(query, noQuery, false, flushes);
      case Resend(query, noQuery, flushes) => var _ := flight.Retransmit(query, noQuery, false, flushes);
      case Deliver(d, i, maxLen, encrypted) =>
        if !failed && d < |flight.wire| && i < |flight.wire[d]| {
          Deliver(d, i, maxLen, encrypted);
        }
      case Take =>
        if !failed {
          Take();
        }
    }

    /** Over any run, what the receiver takes is a prefix of what the sender added: the i-th message handed up is, byte
        for byte, the unfragmented i-th message the sender hashed. */
    method Run(events: seq<Event>)
      requires Valid() && |flight.added| + Adds(events) < TWO_16
      modifies this, flight, receiver.Repr
      ensures Valid()
      ensures |delivered| <= |flight.added| && Delivered(flight.added, delivered)
    {
      hide R.InWindow, AllAgree, IsRaw;
      var i := 0;
      while i < |events|
        invariant 0 <= i <= |events|
        invariant Valid() && fresh(receiver.Repr - old(receiver.Repr))
        invariant |flight.added| + Adds(events[i..]) < TWO_16
      {
        assert events[i..][0] == events[i] && events[i..][1..] == events[i + 1..];
        Step(events[i]);
        i := i + 1;
      }
      PrefixLength(flight.added, delivered);
    }
  }

  lemma RawInHistory(added: seq<Sent>, k: nat, data: seq<byte>)
    requires IsRaw(added, k, data)
    ensures k < |added|
  {
  }

  lemma PrefixLength(added: seq<Sent>, raws: seq<seq<byte>>)
    requires Delivered(added, raws)
    ensures |raws| <= |added|
  {
    if raws != [] {
      assert IsRaw(added, |raws| - 1, raws[|raws| - 1]);
    }
  }
}
