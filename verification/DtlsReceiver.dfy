/** The receiving half of the DTLS handshake transport: a ring of seven messages under reassembly. */
module DtlsReceiver {
  import opened Bytes
  import opened DtlsFragment

  /** The next message expected, and what has arrived of it and of those after it. */
  datatype State = State(readSeq: nat, ring: seq<Option<Partial>>)

  /** Slots hold only messages of the current window, each in its place. */
  predicate InWindow(st: State) {
    && st.readSeq < TWO_16
    && |st.ring| == FLIGHT
    && forall i | 0 <= i < FLIGHT && st.ring[i].Some? ::
         && st.readSeq <= st.ring[i].value.seqNo < st.readSeq + FLIGHT
         && st.ring[i].value.seqNo % FLIGHT == i
         && st.ring[i].value.seqNo < TWO_16
         && st.ring[i].value.msgLen < MAX_BODY
         && st.ring[i].value.got.Keys <= Positions(0, st.ring[i].value.msgLen)
  }

  /** dtls1_get_incoming_message: the slot for a header, None on a mismatch or outside the window. */
  function Incoming(st: State, h: Header): Option<Partial>
    requires |st.ring| == FLIGHT
  {
    if h.seqNo < st.readSeq || h.seqNo - st.readSeq >= FLIGHT then None
    else
      match st.ring[h.seqNo % FLIGHT]
      case None => Some(Partial(h.typ, h.seqNo, h.msgLen, map[]))
      case Some(p) => if p.typ != h.typ || p.msgLen != h.msgLen then None else Some(p)
  }

  function Put(st: State, p: Partial): State
    requires |st.ring| == FLIGHT
  {
    st.(ring := st.ring[p.seqNo % FLIGHT := Some(p)])
  }

  /** One fragment of a handshake record; None is a fatal error. Note that the test for fragments from the future lets
      a sequence number of exactly readSeq + 7 through to the slot lookup, which refuses it. */
  function OpenFragment(st: State, h: Header, body: seq<byte>, maxLen: nat, encrypted: bool): Option<State>
    requires |st.ring| == FLIGHT
  {
    if h.fragOff > h.msgLen || h.fragOff + h.fragLen > h.msgLen || h.msgLen > maxLen then None
    else if encrypted && h.seqNo != st.readSeq then None
    else if h.seqNo < st.readSeq || h.seqNo > st.readSeq + FLIGHT then Some(st)
    else
      match Incoming(st, h)
      case None => None
      case Some(p) =>
        if Complete(p) then Some(Put(st, p))
        else Some(Put(st, p.(got := p.got + At(h.fragOff, body))))
  }

  /** The loop of dtls1_open_handshake over the fragments of one record. */
  function OpenRecord(st: State, bs: seq<byte>, maxLen: nat, encrypted: bool): (r: Option<State>)
    requires |st.ring| == FLIGHT
    ensures r.Some? ==> |r.value.ring| == FLIGHT
    decreases |bs|
  {
    if bs == [] then Some(st)
    else
      match ParseFragment(bs)
      case Fail => None
      case Got(f, n) =>
        match OpenFragment(st, f.0, f.1, maxLen, encrypted)
        case None => None
        case Some(st1) => OpenRecord(st1, bs[n..], maxLen, encrypted)
  }

  function Bodies(p: Partial): (b: seq<byte>)
    requires Complete(p)
    ensures |b| == p.msgLen
  {
    seq(p.msgLen, i requires 0 <= i < p.msgLen => assert i in Positions(0, p.msgLen); p.got[i])
  }

  /** dtls1_get_message: the raw bytes of the current message, once complete. */
  function Message(st: State): Option<seq<byte>>
    requires InWindow(st)
  {
    match st.ring[st.readSeq % FLIGHT]
    case None => None
    case Some(p) =>
      if Complete(p) then Some(HeaderBytes(Header(p.typ, p.msgLen, p.seqNo, 0, p.msgLen)) + Bodies(p)) else None
  }

  /** dtls1_next_message: the slot is freed and the 16-bit sequence number advances. */
  function Advance(st: State): State
    requires |st.ring| == FLIGHT
  {
    State((st.readSeq + 1) % TWO_16, st.ring[st.readSeq % FLIGHT := None])
  }

  /** Processing a fragment keeps every slot in its window. */
  lemma OpenFragmentInWindow(st: State, h: Header, body: seq<byte>, maxLen: nat, encrypted: bool)
    requires InWindow(st) && HeaderFits(h) && |body| == h.fragLen
    ensures OpenFragment(st, h, body, maxLen, encrypted).Some? ==>
              InWindow(OpenFragment(st, h, body, maxLen, encrypted).value)
  {
  }

  lemma {:induction false} OpenRecordInWindow(st: State, bs: seq<byte>, maxLen: nat, encrypted: bool)
    requires InWindow(st)
    ensures OpenRecord(st, bs, maxLen, encrypted).Some? ==> InWindow(OpenRecord(st, bs, maxLen, encrypted).value)
    decreases |bs|
  {
    if bs != [] && ParseFragment(bs).Got? {
      var f := ParseFragment(bs);
      OpenFragmentInWindow(st, f.val.0, f.val.1, maxLen, encrypted);
      var r := OpenFragment(st, f.val.0, f.val.1, maxLen, encrypted);
      if r.Some? {
        OpenRecordInWindow(r.value, bs[f.n..], maxLen, encrypted);
      }
    }
  }

  /** The window moves on without leaving anything behind, even when the sequence number wraps. */
  lemma AdvanceInWindow(st: State)
    requires InWindow(st)
    ensures InWindow(Advance(st))
  {
    var i := st.readSeq % FLIGHT;
    forall j | 0 <= j < FLIGHT && st.ring[j].Some? && j != i ensures st.ring[j].value.seqNo != st.readSeq {
    }
  }

  class Receiver {
    var readSeq: nat
    const ring: array<HmFragment?>
    var hasMessage: bool
    ghost var slots: seq<Option<Partial>>
    ghost var Repr: set<object>

    ghost predicate Valid()
      reads this, Repr
    {
      Owned() && InWindow(View())
    }

    /** The ring owns disjoint fragments, each valid and showing what its slot says. */
    ghost predicate Owned()
      reads this, Repr
    {
      && this in Repr && ring in Repr && ring.Length == FLIGHT
      && (forall i | 0 <= i < FLIGHT && ring[i] != null ::
            && ring[i] in Repr && ring[i] in ring[i].footprint && ring[i].footprint <= Repr
            && this !in ring[i].footprint && ring !in ring[i].footprint
            && ring[i].Valid())
      && (forall i, j | 0 <= i < j < FLIGHT && ring[i] != null && ring[j] != null ::
            ring[i].footprint !! ring[j].footprint)
      && |slots| == FLIGHT
      && (forall i | 0 <= i < FLIGHT :: slots[i] == if ring[i] == null then None else Some(ring[i].View()))
      && (forall i | 0 <= i < FLIGHT && ring[i] != null :: ring[i].reassembly == null <==> Complete(ring[i].View()))
    }

    ghost function View(): State
      reads this
    {
      State(readSeq, slots)
    }

    constructor ()
      ensures Valid() && View() == State(0, seq(FLIGHT, _ => None)) && !hasMessage && fresh(Repr)
    {
      readSeq, hasMessage := 0, false;
      ring := new HmFragment?[FLIGHT](_ => null);
      slots := seq(FLIGHT, _ => None);
      Repr := {this, ring};
    }

    /** A message's first fragment makes its slot. */
    method Insert(h: Header) returns (frag: HmFragment)
      requires Owned() && HeaderFits(h) && ring[h.seqNo % FLIGHT] == null
      modifies this, ring
      ensures Owned() && fresh(Repr - old(Repr)) && Repr >= old(Repr)
      ensures ring[h.seqNo % FLIGHT] == frag && frag.View() == Partial(h.typ, h.seqNo, h.msgLen, map[])
      ensures View() == Put(old(View()), frag.View())
      ensures hasMessage == old(hasMessage)
    {
      hide Complete, InWindow, HmFragment.Valid, HmFragment.View;
      var idx := h.seqNo % FLIGHT;
      frag := new HmFragment(h);
      ring[idx] := frag;
      slots := slots[idx := Some(frag.View())];
      Repr := Repr + {frag} + frag.footprint;
      EmptyMessage(frag.View());
    }

    /** dtls1_get_incoming_message. */
    method GetIncoming(h: Header) returns (frag: HmFragment?)
      requires Valid() && HeaderFits(h)
      modifies this, ring
      ensures Owned() && fresh(Repr - old(Repr)) && Repr >= old(Repr)
      ensures frag == null <==> Incoming(old(View()), h) == None
      ensures frag == null ==> View() == old(View())
      ensures frag != null ==>
                && ring[h.seqNo % FLIGHT] == frag && frag.View() == Incoming(old(View()), h).value
                && View() == Put(old(View()), frag.View())
      ensures hasMessage == old(hasMessage)
    {
      if h.seqNo < readSeq || h.seqNo - readSeq >= FLIGHT {
        return null;
      }
      var idx := h.seqNo % FLIGHT;
      frag := ring[idx];
      if frag == null {
        frag := Insert(h);
        return;
      }
      SameSlotSameMessage(frag.seqNo, h.seqNo, readSeq);
      if frag.typ != h.typ || frag.msgLen != h.msgLen {
        return null;
      }
      assert View().ring == View().ring[idx := Some(frag.View())];
    }

    /** The copy into the fragment, and its mark. */
    method AcceptAt(idx: nat, off: nat, body: seq<byte>)
      requires Owned() && idx < FLIGHT && ring[idx] != null && ring[idx].reassembly != null
      requires off + |body| <= ring[idx].msgLen
      modifies this, ring[idx].footprint
      ensures Owned() && Repr == old(Repr)
      ensures slots == old(slots)[idx := Some(old(slots[idx].value).(got := old(slots[idx].value.got) + At(off, body)))]
      ensures readSeq == old(readSeq) && hasMessage == old(hasMessage)
    {
      hide Complete, At, InWindow, HmFragment.Valid, HmFragment.View;
      var frag := ring[idx];
      frag.Accept(off, body);
      slots := slots[idx := Some(frag.View())];
    }

    /** One turn of the loop of dtls1_open_handshake. */
    method ProcessFragment(h: Header, body: seq<byte>, maxLen: nat, encrypted: bool) returns (ok: bool)
      requires Valid() && HeaderFits(h) && |body| == h.fragLen
      modifies Repr
      ensures Owned() && fresh(Repr - old(Repr)) && Repr >= old(Repr)
      ensures ok ==> Valid()
      ensures ok <==> OpenFragment(old(View()), h, body, maxLen, encrypted).Some?
      ensures ok ==> View() == OpenFragment(old(View()), h, body, maxLen, encrypted).value
      ensures hasMessage == old(hasMessage)
    {
      hide HeaderBytes, HmFragment.Received, HmFragment.Valid;
      if h.fragOff > h.msgLen || h.fragOff + h.fragLen > h.msgLen || h.msgLen > maxLen {
        return false;
      }
      OpenFragmentInWindow(View(), h, body, maxLen, encrypted);
      if encrypted && h.seqNo != readSeq {
        return false;
      }
      if h.seqNo < readSeq || h.seqNo > readSeq + FLIGHT {
        return true;
      }
      var frag := GetIncoming(h);
      if frag == null {
        return false;
      }
      if frag.reassembly == null {
        return true;
      }
      AcceptAt(h.seqNo % FLIGHT, h.fragOff, body);
      return true;
    }

    /** dtls1_open_handshake on the plaintext of a handshake record. */
    method OpenHandshake(record: seq<byte>, maxLen: nat, encrypted: bool) returns (ok: bool)
      requires Valid()
      modifies Repr
      ensures Owned() && fresh(Repr - old(Repr)) && Repr >= old(Repr)
      ensures ok ==> Valid()
      ensures ok <==> OpenRecord(old(View()), record, maxLen, encrypted).Some?
      ensures ok ==> View() == OpenRecord(old(View()), record, maxLen, encrypted).value
      ensures hasMessage == old(hasMessage)
    {
      var rest := record;
      while rest != []
        invariant Valid() && fresh(Repr - old(Repr)) && Repr >= old(Repr) && hasMessage == old(hasMessage)
        invariant OpenRecord(old(View()), record, maxLen, encrypted) == OpenRecord(View(), rest, maxLen, encrypted)
        decreases |rest|
      {
        var f := ParseFragment(rest);
        if f.Fail? {
          return false;
        }
        ok := ProcessFragment(f.val.0, f.val.1, maxLen, encrypted);
        if !ok {
          return;
        }
        rest := rest[f.n..];
      }
      return true;
    }

    /** dtls1_get_message: the current message, raw, when it is complete. */
    method GetMessage() returns (ok: bool, raw: seq<byte>)
      requires Valid()
      modifies this`hasMessage
      ensures Valid() && View() == old(View()) && Repr == old(Repr)
      ensures ok <==> Message(View()).Some?
      ensures ok ==> raw == Message(View()).value && hasMessage
      ensures !ok ==> hasMessage == old(hasMessage)
    {
      var idx := readSeq % FLIGHT;
      var frag := ring[idx];
      if frag == null || frag.reassembly != null {
        return false, [];
      }
      raw := frag.data[..];
      ghost var p := frag.View();
      assert slots[idx] == Some(p);
      assert raw == frag.data[..HEADER_LENGTH] + frag.data[HEADER_LENGTH..];
      assert frag.data[HEADER_LENGTH..] == Bodies(p) by {
        forall i | 0 <= i < p.msgLen ensures frag.data[HEADER_LENGTH..][i] == Bodies(p)[i] {
          assert i in Positions(0, p.msgLen);
        }
      }
      hasMessage := true;
      return true, raw;
    }

    /** dtls1_next_message: only a message that was handed out is released. */
    method NextMessage()
      requires Valid() && hasMessage && Message(View()).Some?
      modifies this, ring
      ensures Valid() && View() == Advance(old(View())) && !hasMessage && Repr == old(Repr)
    {
      hide Complete, InWindow, HeaderBytes;
      AdvanceInWindow(View());
      ring[readSeq % FLIGHT] := null;
      slots := slots[readSeq % FLIGHT := None];
      readSeq := (readSeq + 1) % TWO_16;
      hasMessage := false;
    }
  }

  /** Within the window the slot determines the message, so a fragment is never added to another message's buffer. */
  lemma SameSlotSameMessage(a: nat, b: nat, readSeq: nat)
    requires readSeq <= a < readSeq + FLIGHT && readSeq <= b < readSeq + FLIGHT
    requires a % FLIGHT == b % FLIGHT
    ensures a == b
  {
  }

  lemma EmptyMessage(p: Partial)
    requires p.got == map[]
    ensures Complete(p) <==> p.msgLen == 0
  {
    if p.msgLen > 0 {
      assert 0 in Positions(0, p.msgLen);
    }
  }
}
