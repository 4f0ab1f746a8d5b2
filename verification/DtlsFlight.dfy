/** The outgoing flight of a DTLS connection: messages are added, cut to the MTU, sent and sent again. */
module DtlsFlight {
  import opened Bytes
  import opened DtlsFragment
  import opened DtlsSender
  import opened DtlsPass

  datatype SealResult = SealError | NoProgress | PartialSeal | Sealed

  /** The MTU after the transport has been asked, which happens only below the minimum. */
  function MtuAfter(mtu: nat, query: int, noQuery: bool): (m: nat)
    ensures !noQuery ==> m >= MIN_MTU
  {
    if mtu >= MIN_MTU || noQuery then mtu else if MIN_MTU <= query <= 0x4000_0000 then query else DEFAULT_MTU
  }

  /** The transport is asked for its MTU, and its answer can be used. */
  predicate Answered(mtu: nat, query: int, noQuery: bool) {
    mtu < MIN_MTU && !noQuery && MIN_MTU <= query <= 0x4000_0000
  }

  class Flight {
    var messages: seq<Outgoing>  // outgoing_messages
    var written: nat             // outgoing_written
    var offset: nat              // outgoing_offset
    var complete: bool           // outgoing_messages_complete
    var writeSeq: nat            // handshake_write_seq
    var wEpoch: nat
    var mtu: nat
    var seals: nat     // calls of the cipher so far
    var attempts: nat  // datagrams offered to the transport so far

    const cipher: Cipher
    const transport: nat -> bool  // whether a write succeeds

    var wire: seq<seq<Record>>  // every datagram the transport has taken
    ghost var added: seq<Sent>  // every message ever added

    ghost predicate Valid()
      reads this
    {
      && cipher.Bounded()
      && |messages| <= FLIGHT && written <= |messages|
      && offset <= (if written < |messages| then |BodyOf(messages[written])| else 0)
      && (forall i | 0 <= i < |messages| :: Honest(added, messages[i]))
      && writeSeq == |added| % TWO_16
      && (forall i | 0 <= i < |added| :: |added[i].body| < MAX_BODY)
      && (forall d, r | d in wire && r in d :: HonestRecord(added, r))
    }

    ghost function Pos(): Position
      reads `written, `offset
    {
      Position(written, offset)
    }

    function Current(): Setting
      reads `messages, `wEpoch
    {
      Setting(messages, wEpoch, cipher, transport)
    }

    constructor (cipher: Cipher, transport: nat -> bool)
      requires cipher.Bounded()
      ensures Valid() && messages == [] && added == [] && wire == [] && wEpoch == 0 && Pos() == Position(0, 0)
      ensures seals == 0 && attempts == 0 && mtu == 0 && !complete
      ensures this.cipher == cipher && this.transport == transport
    {
      messages, written, offset, complete, writeSeq, wEpoch, mtu, seals, attempts := [], 0, 0, false, 0, 0, 0, 0, 0;
      this.cipher, this.transport := cipher, transport;
      added, wire := [], [];
    }

    // ----- Adding -----

    /** The start of add_outgoing: a new flight discards the one before. */
    method StartFlight()
      requires Valid()
      modifies this`messages, this`written, this`offset, this`complete
      ensures Valid() && !complete
      ensures old(complete) ==> messages == [] && Pos() == Position(0, 0)
      ensures !old(complete) ==> messages == old(messages) && Pos() == old(Pos())
    {
      if complete {
        messages, written, offset, complete := [], 0, 0, false;
      }
    }

    /** dtls1_init_message, dtls1_finish_message and dtls1_add_message. */
    method AddMessage(typ: byte, body: seq<byte>) returns (ok: bool)
      requires Valid()
      modifies this`messages, this`written, this`offset, this`complete, this`writeSeq, this`added
      ensures Valid()
      ensures ok <==> |body| < MAX_BODY && (old(complete) || |old(messages)| < FLIGHT)
      ensures ok ==>
                && added == old(added) + [Sent(typ, body)]
                && messages == (if old(complete) then [] else old(messages))
                               + [Handshake(RawMessage(typ, |old(added)| % TWO_16, body), wEpoch)]
      ensures ok ==> !complete
      ensures !ok ==> added == old(added) && messages == old(messages) && complete == old(complete)
      ensures Pos() == if |body| < MAX_BODY && old(complete) then Position(0, 0) else old(Pos())
    {
      hide RawMessage, IsRaw, Honest, HonestRecord, BodyOf;
      if |body| >= MAX_BODY {
        return false;
      }
      var data := RawMessage(typ, writeSeq, body);
      StartFlight();
      if |messages| >= FLIGHT {
        return false;
      }
      StillHonest(added, [Sent(typ, body)]);
      NewHonest(added, Sent(typ, body), wEpoch);
      added := added + [Sent(typ, body)];
      writeSeq := (writeSeq + 1) % TWO_16;
      messages := messages + [Handshake(data, wEpoch)];
      return true;
    }

    /** dtls1_add_change_cipher_spec. */
    method AddChangeCipherSpec() returns (ok: bool)
      requires Valid()
      modifies this`messages, this`written, this`offset, this`complete
      ensures Valid()
      ensures ok <==> old(complete) || |old(messages)| < FLIGHT
      ensures ok ==> messages == (if old(complete) then [] else old(messages)) + [ChangeCipherSpec(wEpoch)] && !complete
      ensures !ok ==> messages == old(messages) && complete == old(complete)
      ensures Pos() == if old(complete) then Position(0, 0) else old(Pos())
    {
      StartFlight();
      if |messages| >= FLIGHT {
        return false;
      }
      messages := messages + [ChangeCipherSpec(wEpoch)];
      return true;
    }

    /** dtls1_set_write_state. */
    method NextEpoch()
      requires Valid()
      modifies this`wEpoch
      ensures Valid() && wEpoch == (old(wEpoch) + 1) % TWO_16
    {
      wEpoch := (wEpoch + 1) % TWO_16;
    }

    // ----- Sealing -----

    /** dtls_seal_record: the length on the wire. */
    method SealRecord(m: Outgoing, plaintext: seq<byte>) returns (r: Option<Record>)
      modifies `seals
      ensures seals == old(seals) + 1
      ensures r == if !cipher.Accepts(m.epoch, old(seals), plaintext) then None
                   else Some(Record(m.epoch, m.ChangeCipherSpec?, plaintext,
                                    RECORD_HEADER + cipher.seal(m.epoch, old(seals), plaintext).value))
    {
      var len := cipher.seal(m.epoch, seals, plaintext);
      seals := seals + 1;
      if len.None? || len.value >= TWO_16 {
        return None;
      }
      return Some(Record(m.epoch, m.ChangeCipherSpec?, plaintext, RECORD_HEADER + len.value));
    }

    /** What an attempt comes to for the caller. */
    ghost predicate Comes(a: Attempt, at: Position, n: nat, res: SealResult, r: Record)
      reads `offset, `seals
    {
      match a
      case Stuck => res == SealError && offset == at.offset && seals == n
      case Full => res == NoProgress && offset == at.offset && seals == n
      case Refusal => res == SealError && offset == at.offset && seals == n + 1
      case Take(t, q) =>
        && res == (if q.written == at.written then PartialSeal else Sealed)
        && r == t && offset == q.offset && seals == n + 1
    }

    /** seal_next_message. */
    method SealNextMessage(maxOut: nat) returns (res: SealResult, r: Record)
      requires Valid() && written < |messages| && Current().Within(Pos())
      modifies `offset, `seals
      ensures Comes(Next(Current(), old(Pos()), old(seals), maxOut), old(Pos()), old(seals), res, r)
    {
      hide HeaderBytes, ParseFragment, HonestRecord, Honest;
      var m := messages[written];
      r := Record(0, false, [], 0);
      if m.epoch != wEpoch && (wEpoch == 0 || m.epoch != wEpoch - 1) {
        return SealError, r;
      }
      var overhead, prefix := RECORD_HEADER + cipher.maxOverhead(m.epoch), RECORD_HEADER + cipher.nonceLen(m.epoch);
      assert prefix <= overhead;
      if m.ChangeCipherSpec? {
        if maxOut < 1 + overhead {
          return NoProgress, r;
        }
        var sealed := SealRecord(m, [1]);
        if sealed.None? {
          return SealError, r;
        }
        return Sealed, sealed.value;
      }
      HonestContents(added, m);
      var parsed := ParseFragment(m.data);
      if parsed.Fail? || parsed.val.0.fragOff != 0 || parsed.val.0.msgLen != |parsed.val.1|
         || |parsed.val.1| < offset || parsed.n != |m.data| {
        assert false;
      }
      var (h, whole) := parsed.val;
      if maxOut < HEADER_LENGTH + 1 + overhead || maxOut < prefix {
        return NoProgress, r;
      }
      var body := whole[offset..];
      var todo := if |body| > maxOut - HEADER_LENGTH - overhead then maxOut - HEADER_LENGTH - overhead else |body|;
      var fragment := HeaderBytes(Header(h.typ, h.msgLen, h.seqNo, offset, todo)) + body[..todo];
      assert |fragment| <= maxOut - prefix;  // it is assembled in place, behind the prefix
      assert body[..todo] == whole[offset..offset + todo];
      assert fragment == Text(Current(), Pos(), todo);
      var sealed := SealRecord(m, fragment);
      if sealed.None? {
        return SealError, r;
      }
      r := sealed.value;
      if todo == |body| {
        offset := 0;
        return Sealed, r;
      }
      offset := offset + todo;
      return PartialSeal, r;
    }

    /** seal_next_packet. On a failure the position stays behind the records sealed before it. */
    method SealNextPacket() returns (res: PacketResult, rs: seq<Record>)
      requires Valid() && written < |messages| && Current().Within(Pos())
      modifies `offset, `written, `seals
      ensures Current().Within(Pos())
      ensures Packet(rs, Pos(), seals, res) == PacketAt(Current(), old(Pos()), old(seals), mtu)
    {
      hide Next, Follow, BodyOf, FollowAll, HonestRecord, Honest, WireLen, PacketAt;
      rs := [];
      ghost var s := Current();
      var maxOut: nat := mtu;
      while written < |messages|
        invariant Valid() && s.Within(Pos())
        invariant PacketAt(s, old(Pos()), old(seals), mtu) == PacketAt(s, Pos(), seals, maxOut).After(rs)
        decreases |messages| - written
      {
        ghost var at, n := Pos(), seals;
        var ret, r := SealNextMessage(maxOut);
        PacketStep(s, at, n, maxOut, rs);
        if ret == SealError {
          return Failed, rs;
        }
        if ret == NoProgress {
          break;
        }
        NextFollows(s, at, n, maxOut);
        maxOut := maxOut - r.wireLen;
        rs := rs + [r];
        if ret == PartialSeal {
          break;
        }
        written := written + 1;
      }
      if written == |messages| {
        PacketEnd(s, Pos(), seals, maxOut, rs);
      }
      return if rs == [] then TooSmall else Packed, rs;
    }

    // ----- Sending -----

    /** SSL_set_mtu. */
    method SetMtu(n: nat) returns (ok: bool)
      modifies this`mtu
      ensures ok <==> n >= MIN_MTU
      ensures mtu == if ok then n else old(mtu)
    {
      if n < MIN_MTU {
        return false;
      }
      mtu := n;
      return true;
    }

    /** dtls1_update_mtu, with the answer of the transport. */
    method UpdateMtu(query: int, noQuery: bool)
      modifies `mtu
      ensures mtu == MtuAfter(old(mtu), query, noQuery)
      ensures Answered(old(mtu), query, noQuery) ==> mtu == query
      ensures old(mtu) >= MIN_MTU || noQuery ==> mtu == old(mtu)
    {
      if mtu < MIN_MTU && !noQuery {
        if query >= 0 && query <= 0x4000_0000 && query >= MIN_MTU {
          mtu := query;
        } else {
          mtu := DEFAULT_MTU;
        }
      }
    }

    /** What a pass comes to for the caller. */
    ghost predicate Done(x: Pass, before: seq<seq<Record>>, res: FlightResult, lost: seq<Record>)
      reads `wire, `written, `offset, `seals, `attempts
    {
      && wire == before + x.sent && lost == x.lost && Pos() == x.pos
      && seals == x.sealed && attempts == x.attempts && res == x.res
    }

    /** The loop of send_flight. */
    method SendPackets() returns (res: FlightResult, ghost lost: seq<Record>)
      requires Valid() && Current().Within(Pos())
      modifies `offset, `written, `seals, `attempts, `wire
      ensures Valid() && Current().Within(Pos())
      ensures Done(PassAt(Current(), mtu, old(Pos()), old(seals), old(attempts)), old(wire), res, lost)
    {
      hide PassAt, PacketAt, FollowAll, BodyOf, HonestRecord, Honest, WireLen, Cipher.Bounded, Setting.Within;
      ghost var s := Current();
      ghost var sent := [];
      lost := [];
      while written < |messages|
        invariant Valid() && s.Within(Pos()) && wire == old(wire) + sent
        invariant PassAt(s, mtu, old(Pos()), old(seals), old(attempts))
               == PassAt(s, mtu, Pos(), seals, attempts).After(sent)
        decreases |messages| - written, if written < |messages| then |BodyOf(messages[written])| - offset else 0
      {
        ghost var at, n := Pos(), seals;
        var oldWritten, oldOffset := written, offset;
        var packed, packet := SealNextPacket();
        WithinBound(s, Pos());
        PacketFollows(s, at, n, mtu);
        PassStep(s, mtu, at, n, attempts, sent);
        if packed != Packed {
          lost := packet;
          return if packed == TooSmall then MtuTooSmall else SealFailed, lost;
        }
        var accepted := transport(attempts);
        attempts := attempts + 1;
        if !accepted {
          written, offset := oldWritten, oldOffset;
          return WriteBlocked, lost;
        }
        AllFollowHonest(added, messages, at, packet);
        sent := sent + [packet];
        wire := wire + [packet];
      }
      PassEnd(s, mtu, Pos(), seals, attempts, sent);
      return Flushed, lost;
    }

    /**
     * send_flight, with the transport's answers to the MTU query and to BIO_flush. What was written and then what was
     * lost is exactly the pieces of the flight between the old position and the new one, and only a failure to seal
     * loses anything: a refused record takes with it the ones sealed before it in the same packet.
     */
    method SendFlight(query: int, noQuery: bool, shutdown: bool, flushes: bool)
      returns (res: FlightResult, ghost lost: seq<Record>)
      requires Valid()
      modifies `offset, `written, `seals, `attempts, `mtu, `wire
      ensures Valid()
      ensures res == Shutdown <==> shutdown
      ensures shutdown ==> unchanged(this) && lost == []
      ensures !shutdown ==> mtu == MtuAfter(old(mtu), query, noQuery)
      ensures !shutdown ==> Done(PassAt(Current(), mtu, old(Pos()), old(seals), old(attempts)), old(wire),
                                 if res == Unflushed then Flushed else res, lost)
      ensures res == Unflushed ==> !flushes
      ensures res == Flushed ==> flushes
      ensures |old(wire)| <= |wire| && wire[..|old(wire)|] == old(wire)
      ensures forall d | d in wire[|old(wire)|..] :: Fits(mtu, d)
      ensures Answered(old(mtu), query, noQuery) ==> forall d | d in wire[|old(wire)|..] :: Fits(query, d)
      ensures old(mtu) >= MIN_MTU ==> forall d | d in wire[|old(wire)|..] :: Fits(old(mtu), d)
      ensures FollowAll(messages, old(Pos()), Records(wire[|old(wire)|..]) + lost) == Some(Pos())
      ensures lost == [] <==> FollowAll(messages, old(Pos()), Records(wire[|old(wire)|..])) == Some(Pos())
      ensures lost != [] ==> res == SealFailed
      ensures res == SealFailed && Current().SealableFrom(old(Pos())) ==>
                && !cipher.AcceptsFrom(old(seals))
                && (lost != [] <==> seals - 1 != old(seals) + |Records(wire[|old(wire)|..])|)
      ensures res in {Flushed, Unflushed} ==> Pos() == Position(|messages|, 0)
      ensures res == MtuTooSmall ==> written < |messages| && mtu < Current().Room(messages[written])
      ensures res == WriteBlocked ==> attempts > old(attempts) && !transport(attempts - 1)
    {
      hide PassAt, PacketAt, Follow, FollowAll, BodyOf, HonestRecord, Honest, WireLen, Records, Fits, Cipher.Bounded,
           Cipher.AcceptsFrom, Setting.SealableFrom;
      ghost var s, p, n, a, before := Current(), Pos(), seals, attempts, wire;
      if shutdown {
        NothingRecorded(s, p);
        assert wire[|wire|..] == [];
        return Shutdown, [];
      }
      UpdateMtu(query, noQuery);
      res, lost := SendPackets();
      PassFollows(s, mtu, p, n, a);
      PositionIsWritten(s, mtu, p, n, a);
      LostExactly(s, mtu, p, n, a);
      assert wire[|before|..] == PassAt(s, mtu, p, n, a).sent;
      if res == Flushed && !flushes {
        res := Unflushed;
      }
    }

    /** dtls1_flush_flight. */
    method Flush(query: int, noQuery: bool, shutdown: bool, flushes: bool)
      returns (res: FlightResult, ghost lost: seq<Record>)
      requires Valid()
      modifies `offset, `written, `seals, `attempts, `mtu, `wire, `complete
      ensures Valid() && complete
      ensures res == Shutdown <==> shutdown
      ensures !shutdown ==> mtu == MtuAfter(old(mtu), query, noQuery)
      ensures !shutdown ==> Done(PassAt(Current(), mtu, old(Pos()), old(seals), old(attempts)), old(wire),
                                 if res == Unflushed then Flushed else res, lost)
      ensures |old(wire)| <= |wire| && wire[..|old(wire)|] == old(wire)
      ensures forall d | d in wire[|old(wire)|..] :: Fits(mtu, d)
      ensures Answered(old(mtu), query, noQuery) ==> forall d | d in wire[|old(wire)|..] :: Fits(query, d)
      ensures old(mtu) >= MIN_MTU ==> forall d | d in wire[|old(wire)|..] :: Fits(old(mtu), d)
      ensures FollowAll(messages, old(Pos()), Records(wire[|old(wire)|..]) + lost) == Some(Pos())
      ensures lost == [] <==> FollowAll(messages, old(Pos()), Records(wire[|old(wire)|..])) == Some(Pos())
      ensures lost != [] ==> res == SealFailed
      ensures res == SealFailed && Current().SealableFrom(old(Pos())) ==>
                && !cipher.AcceptsFrom(old(seals))
                && (lost != [] <==> seals - 1 != old(seals) + |Records(wire[|old(wire)|..])|)
      ensures res in {Flushed, Unflushed} ==> Pos() == Position(|messages|, 0)
      ensures res == MtuTooSmall ==> written < |messages| && mtu < Current().Room(messages[written])
      ensures res == WriteBlocked ==> attempts > old(attempts) && !transport(attempts - 1)
      ensures res == Unflushed ==> !flushes
    {
      hide PassAt, Follow, FollowAll, BodyOf, HonestRecord, Honest, WireLen, Records, Fits, Cipher.Bounded,
           Cipher.AcceptsFrom, Setting.SealableFrom;
      complete := true;
      res, lost := SendFlight(query, noQuery, shutdown, flushes);
    }

    /** dtls1_retransmit_outgoing_messages: a pass that completes carries every body of the flight again, whatever the
        position before and whatever the MTU now. */
    method Retransmit(query: int, noQuery: bool, shutdown: bool, flushes: bool) returns (res: FlightResult)
      requires Valid()
      modifies `offset, `written, `seals, `attempts, `mtu, `wire
      ensures Valid()
      ensures |old(wire)| <= |wire| && wire[..|old(wire)|] == old(wire)
      ensures forall d | d in wire[|old(wire)|..] :: Fits(mtu, d)
      ensures Answered(old(mtu), query, noQuery) ==> forall d | d in wire[|old(wire)|..] :: Fits(query, d)
      ensures old(mtu) >= MIN_MTU ==> forall d | d in wire[|old(wire)|..] :: Fits(old(mtu), d)
      ensures res in {Flushed, Unflushed} ==> AllCarried(Records(wire[|old(wire)|..])) == Flatten(Bodies(messages))
    {
      hide PassAt, Follow, FollowAll, BodyOf, AllCarried, Flatten, WireLen, Records, Bodies, Fits, HonestRecord,
           Honest, Cipher.Bounded, Cipher.AcceptsFrom, Setting.SealableFrom;
      written, offset := 0, 0;
      ghost var start := Pos();
      ghost var lost;
      res, lost := SendFlight(query, noQuery, shutdown, flushes);
      if res in {Flushed, Unflushed} {
        ghost var rs := Records(wire[|old(wire)|..]);
        assert rs + lost == rs;
        CompletePassTiles(messages, Bodies(messages), start, rs);
        NextStart(Bodies(messages), 0);
        assert Bodies(messages)[0..] == Bodies(messages);
      }
    }
  }

  lemma NewHonest(added: seq<Sent>, s: Sent, epoch: nat)
    requires |s.body| < MAX_BODY
    ensures Honest(added + [s], Handshake(RawMessage(s.typ, |added| % TWO_16, s.body), epoch))
  {
    assert IsRaw(added + [s], |added|, RawMessage(s.typ, |added| % TWO_16, s.body));
  }

  lemma HonestContents(added: seq<Sent>, m: Outgoing)
    requires m.Handshake? && Honest(added, m)
    ensures Contents(m.data).Some?
  {
    var k: nat :| IsRaw(added, k, m.data);
    RawContents(added[k].typ, k % TWO_16, added[k].body);
  }

  /** A cipher that adds nothing to a text a record can hold, and refuses the second record and no other. */
  function RefusesSecond(): Cipher {
    Cipher(_ => 0, _ => 0, (e: nat, n: nat, pt: seq<byte>) => if n == 1 then None else Some(|pt| % TWO_16))
  }

  ghost predicate Empty(m: Outgoing) {
    m.Handshake? && m.epoch == 0 && Contents(m.data).Some? && BodyOf(m) == []
  }

  lemma EmptyIsEmpty(typ: byte, seqNo: nat)
    requires seqNo < TWO_16
    ensures Empty(Handshake(RawMessage(typ, seqNo, []), 0))
  {
    RawContents(typ, seqNo, []);
  }

  /** Such a cipher is called for two empty messages: the first record is sealed and lost. */
  lemma FirstIsLost(s: Setting, mtu: nat)
    requires s.cipher == RefusesSecond() && s.epoch == 0 && mtu >= MIN_MTU
    requires |s.messages| == 2 && Empty(s.messages[0]) && Empty(s.messages[1])
    ensures var x := PassAt(s, mtu, Position(0, 0), 0, 0);
            && x.res == SealFailed && |x.lost| == 1 && x.sent == [] && x.pos == Position(1, 0) && x.sealed == 2
            && Follow(s.messages, Position(0, 0), x.lost[0]) == Some(Position(1, 0))
  {
    hide PassAt, PacketAt, Follow, HeaderBytes, ParseFragment;
    var p, q := Position(0, 0), Position(1, 0);
    assert |Text(s, p, 0)| == HEADER_LENGTH;
    NextFollows(s, p, 0, mtu);
    SecondRefused(s, mtu, p, 0, 0);
  }

  lemma SmallestRoom(s: Setting, mtu: nat)
    requires s.cipher == RefusesSecond() && mtu >= MIN_MTU
    ensures forall m :: s.Room(m) < mtu
  {
  }

  /** The other message alone is sealed, sent and reported, unless the transport refuses or the MTU is too small. */
  lemma RestIsSent(s: Setting, mtu: nat, a: nat)
    requires s.cipher == RefusesSecond() && s.epoch == 0 && mtu >= MIN_MTU && forall i :: s.transport(i)
    requires |s.messages| == 2 && Empty(s.messages[0]) && Empty(s.messages[1])
    ensures PassAt(s, mtu, Position(1, 0), 2, a).res == Flushed
  {
    hide PassAt, PacketAt, Follow, FollowAll, Contents, BodyOf, Records, Fits, Next;
    PassFollows(s, mtu, Position(1, 0), 2, a);
    assert s.cipher.AcceptsFrom(2);
    assert s.SealableFrom(Position(1, 0));
    SmallestRoom(s, mtu);
  }

  method TwoEmpty() returns (f: Flight)
    ensures fresh(f) && f.Valid() && f.Pos() == Position(0, 0) && f.seals == 0 && f.attempts == 0 && f.wire == []
    ensures |f.messages| == 2 && Empty(f.messages[0]) && Empty(f.messages[1]) && f.wEpoch == 0
    ensures f.cipher == RefusesSecond() && forall i :: f.transport(i)
  {
    hide RawMessage, Honest, HonestRecord, Empty, RefusesSecond, Cipher.Bounded, Flight.Valid;
    BoundedSecond();
    f := new Flight(RefusesSecond(), _ => true);
    var _ := f.AddMessage(1, []);
    var _ := f.AddMessage(2, []);
    EmptyIsEmpty(1, 0);
    EmptyIsEmpty(2, 1);
    assert f.messages == [Handshake(RawMessage(1, 0, []), 0), Handshake(RawMessage(2, 1, []), 0)];
  }

  /**
   * Two empty messages in one packet, of which the second is refused: the first is sealed, never written, and passed over
   * by the position. The next flush succeeds without it.
   */
  method LoseFirst() returns (f: Flight, first: FlightResult, second: FlightResult, ghost lost: seq<Record>)
    ensures fresh(f) && f.Valid() && |f.messages| == 2
    ensures first == SealFailed && |lost| == 1 && Follow(f.messages, Position(0, 0), lost[0]) == Some(Position(1, 0))
    ensures second == Flushed && FollowAll(f.messages, Position(1, 0), Records(f.wire)) == Some(Position(2, 0))
  {
    hide PassAt, FollowAll, Follow, Records, Honest, HonestRecord, Empty, Fits, RefusesSecond, Cipher.Bounded, BodyOf,
         Cipher.AcceptsFrom, Setting.SealableFrom;
    f := TwoEmpty();
    ghost var s, rest := f.Current(), [];
    first, lost := f.Flush(0, false, false, true);
    FirstIsLost(s, f.mtu);
    assert f.wire == [];
    RestIsSent(s, f.mtu, f.attempts);
    second, rest := f.Flush(0, false, false, true);
    assert f.wire[0..] == f.wire;
  }

  lemma BoundedSecond()
    ensures RefusesSecond().Bounded()
  {
  }
}
