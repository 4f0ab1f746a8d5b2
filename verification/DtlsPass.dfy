/** One pass over an outgoing DTLS flight, as a function of where it starts and of what cipher and transport answer. */
module DtlsPass {
  import opened Bytes
  import opened DtlsFragment
  import opened DtlsSender

  datatype Cipher = Cipher(
    maxOverhead: nat -> nat,                      // MaxOverhead of an epoch's cipher
    nonceLen: nat -> nat,                         // ExplicitNonceLen of an epoch's cipher
    seal: (nat, nat, seq<byte>) -> Option<nat>)   // ciphertext length of the n-th record sealed, None on failure
  {
    /** All that is assumed of a cipher: it adds at most its maximal overhead, its explicit nonce included. */
    ghost predicate Bounded() {
      && (forall e :: nonceLen(e) <= maxOverhead(e))
      && (forall e, n, pt :: seal(e, n, pt).Some? ==> seal(e, n, pt).value <= |pt| + maxOverhead(e))
    }

    /** The n-th record is sealed, and its length fits a record header. */
    predicate Accepts(e: nat, n: nat, plaintext: seq<byte>) {
      seal(e, n, plaintext).Some? && seal(e, n, plaintext).value < TWO_16
    }

    ghost predicate AcceptsFrom(n: nat) {
      forall e, k, pt | k >= n :: Accepts(e, k, pt)
    }
  }

  /** What a pass depends on and does not change. */
  datatype Setting = Setting(messages: seq<Outgoing>, epoch: nat, cipher: Cipher, transport: nat -> bool)
  {
    /** Only the current epoch and the one before can still be sealed, and a message has to be one as it was added. */
    predicate Sealable(m: Outgoing) {
      && (m.epoch == epoch || m.epoch + 1 == epoch)
      && (m.Handshake? ==> Contents(m.data).Some?)
    }

    function Overhead(m: Outgoing): nat {
      RECORD_HEADER + cipher.maxOverhead(m.epoch)
    }

    /** The least room in which a message makes progress: a ChangeCipherSpec, or a fragment of one body byte. */
    function Room(m: Outgoing): nat {
      Overhead(m) + if m.ChangeCipherSpec? then 1 else HEADER_LENGTH + 1
    }

    predicate Within(p: Position) {
      p.written <= |messages| && p.offset <= if p.written < |messages| then |BodyOf(messages[p.written])| else 0
    }

    /** Everything from a position on can be sealed. */
    predicate SealableFrom(p: Position) {
      forall i | p.written <= i < |messages| :: Sealable(messages[i])
    }
  }

  // ----- One record -----

  datatype Attempt = Stuck | Full | Refusal | Take(r: Record, next: Position)

  /** How many body bytes of a message the next record carries. */
  function Cut(s: Setting, p: Position, room: nat): (todo: nat)
    requires p.written < |s.messages| && s.Within(p) && room >= s.Room(s.messages[p.written])
    ensures p.offset + todo <= |BodyOf(s.messages[p.written])|
    ensures todo == 0 ==> p.offset == |BodyOf(s.messages[p.written])|
  {
    var m := s.messages[p.written];
    var left := |BodyOf(m)| - p.offset;
    if m.Handshake? && left > room - HEADER_LENGTH - s.Overhead(m) then room - HEADER_LENGTH - s.Overhead(m) else left
  }

  /** What the next record seals. */
  function Text(s: Setting, p: Position, todo: nat): seq<byte>
    requires p.written < |s.messages| && s.Sealable(s.messages[p.written])
    requires p.offset + todo <= |BodyOf(s.messages[p.written])|
  {
    match s.messages[p.written]
    case ChangeCipherSpec(_) => [1]
    case Handshake(data, _) =>
      var (h, body) := Contents(data).value;
      Piece(h.typ, h.seqNo, body, p.offset, todo)
  }

  function NextPosition(s: Setting, p: Position, todo: nat): Position
    requires p.written < |s.messages|
  {
    if p.offset + todo == |BodyOf(s.messages[p.written])| then Position(p.written + 1, 0)
    else Position(p.written, p.offset + todo)
  }

  /** Sealing at position p, with the n-th call of the cipher and so much room left in the packet. */
  function Next(s: Setting, p: Position, n: nat, room: nat): (a: Attempt)
    requires p.written < |s.messages| && s.Within(p)
    ensures a.Take? ==> a.next == Position(p.written + 1, 0)
                        || (a.next.written == p.written && p.offset < a.next.offset < |BodyOf(s.messages[p.written])|)
  {
    var m := s.messages[p.written];
    if !s.Sealable(m) then Stuck
    else if room < s.Room(m) then Full
    else
      var todo := Cut(s, p, room);
      var text := Text(s, p, todo);
      if !s.cipher.Accepts(m.epoch, n, text) then Refusal
      else
        Take(Record(m.epoch, m.ChangeCipherSpec?, text, RECORD_HEADER + s.cipher.seal(m.epoch, n, text).value),
             NextPosition(s, p, todo))
  }

  /** The record taken is the next piece of the flight, fits the room, and fills it unless it ends its message. */
  lemma NextFollows(s: Setting, p: Position, n: nat, room: nat)
    requires s.cipher.Bounded() && p.written < |s.messages| && s.Within(p) && Next(s, p, n, room).Take?
    ensures Follow(s.messages, p, Next(s, p, n, room).r) == Some(Next(s, p, n, room).next)
    ensures Next(s, p, n, room).r.wireLen <= room && s.Within(Next(s, p, n, room).next)
    ensures Next(s, p, n, room).next.written == p.written ==>
              |Next(s, p, n, room).r.plaintext| + s.Overhead(s.messages[p.written]) == room
  {
    hide HeaderBytes, ParseFragment;
    var m, todo := s.messages[p.written], Cut(s, p, room);
    assert s.cipher.seal(m.epoch, n, Text(s, p, todo)).value <= |Text(s, p, todo)| + s.cipher.maxOverhead(m.epoch);
    if m.Handshake? {
      assert |Text(s, p, todo)| == HEADER_LENGTH + todo;
    }
  }

  // ----- One packet -----

  datatype PacketResult = Packed | TooSmall | Failed
  datatype Packet = Packet(rs: seq<Record>, pos: Position, sealed: nat, res: PacketResult)
  {
    /** The packet with more records in front. */
    function After(before: seq<Record>): Packet {
      Packet(before + rs, pos, sealed, if before != [] && res == TooSmall then Packed else res)
    }
  }

  /** A packet sealed from position p on: records until the room is used up, a message is cut or the flight ends. */
  function PacketAt(s: Setting, p: Position, n: nat, room: nat): (k: Packet)
    requires s.cipher.Bounded() && s.Within(p)
    ensures s.Within(k.pos) && k.sealed >= n
    ensures k.rs == [] ==> k.pos == p
    ensures k.rs != [] ==> k.pos.written > p.written
                           || (k.pos.written == p.written && p.offset < k.pos.offset <= |BodyOf(s.messages[p.written])|)
    decreases |s.messages| - p.written
  {
    if p.written == |s.messages| then Packet([], p, n, TooSmall)
    else
      match Next(s, p, n, room)
      case Stuck => Packet([], p, n, Failed)
      case Full => Packet([], p, n, TooSmall)
      case Refusal => Packet([], p, n + 1, Failed)
      case Take(r, q) =>
        NextFollows(s, p, n, room);
        if q.written == p.written then Packet([r], q, n + 1, Packed)
        else PacketAt(s, q, n + 1, room - r.wireLen).After([r])
  }

  lemma FullMeansSmall(s: Setting, p: Position, n: nat, room: nat)
    requires p.written < |s.messages| && s.Within(p)
    ensures Next(s, p, n, room).Full? <==> s.Sealable(s.messages[p.written]) && room < s.Room(s.messages[p.written])
  {
  }

  /** A packet's records are the next pieces of the flight and fit the room together. */
  lemma {:induction false} PacketFollows(s: Setting, p: Position, n: nat, room: nat)
    requires s.cipher.Bounded() && s.Within(p)
    ensures var k := PacketAt(s, p, n, room);
            && FollowAll(s.messages, p, k.rs) == Some(k.pos) && WireLen(k.rs) <= room
            && (k.res == Packed ==> k.rs != []) && (k.res == TooSmall ==> k.rs == [] && k.pos == p)
            && (k.res == TooSmall && p.written < |s.messages| ==> room < s.Room(s.messages[p.written]))
    decreases |s.messages| - p.written
  {
    hide Next, Follow, Cipher.Bounded, Setting.Within, Setting.Room, Setting.Sealable, BodyOf;
    WithinBound(s, p);
    if p.written < |s.messages| {
      FullMeansSmall(s, p, n, room);
    }
    if p.written < |s.messages| && Next(s, p, n, room).Take? {
      NextFollows(s, p, n, room);
      var r, q := Next(s, p, n, room).r, Next(s, p, n, room).next;
      if q.written != p.written {
        PacketFollows(s, q, n + 1, room - r.wireLen);
        var rest := PacketAt(s, q, n + 1, room - r.wireLen).rs;
        assert ([r] + rest)[1..] == rest;
      } else {
        assert [r][1..] == [];
      }
    }
  }

  /** One turn of the packet's loop. */
  lemma PacketStep(s: Setting, p: Position, n: nat, room: nat, before: seq<Record>)
    requires s.cipher.Bounded() && s.Within(p) && p.written < |s.messages|
    ensures var k := PacketAt(s, p, n, room).After(before);
            match Next(s, p, n, room)
            case Stuck => k == Packet(before, p, n, Failed)
            case Full => k == Packet(before, p, n, if before == [] then TooSmall else Packed)
            case Refusal => k == Packet(before, p, n + 1, Failed)
            case Take(r, q) =>
              && r.wireLen <= room && s.Within(q)
              && k == if q.written == p.written then Packet(before + [r], q, n + 1, Packed)
                      else PacketAt(s, q, n + 1, room - r.wireLen).After(before + [r])
  {
    hide Next, Follow, Cipher.Bounded, Setting.Within;
    if Next(s, p, n, room).Take? {
      NextFollows(s, p, n, room);
      var r, q := Next(s, p, n, room).r, Next(s, p, n, room).next;
      if q.written != p.written {
        var rest := PacketAt(s, q, n + 1, room - r.wireLen);
        assert before + ([r] + rest.rs) == (before + [r]) + rest.rs;
      }
    }
  }

  lemma PacketEnd(s: Setting, p: Position, n: nat, room: nat, before: seq<Record>)
    requires s.cipher.Bounded() && s.Within(p) && p.written == |s.messages|
    ensures PacketAt(s, p, n, room).After(before) == Packet(before, p, n, if before == [] then TooSmall else Packed)
  {
  }

  /** Why sealing stops with an error: what cannot be sealed, or a record the cipher refuses. */
  lemma Causes(s: Setting, p: Position, n: nat, room: nat)
    requires p.written < |s.messages| && s.Within(p)
    ensures Next(s, p, n, room).Stuck? ==> !s.SealableFrom(p)
    ensures Next(s, p, n, room).Refusal? ==> !s.cipher.AcceptsFrom(n)
  {
    hide Text, Cut, NextPosition;
    if Next(s, p, n, room).Refusal? {
      var m := s.messages[p.written];
      assert !s.cipher.Accepts(m.epoch, n, Text(s, p, Cut(s, p, room)));
    }
  }

  lemma Later(s: Setting, p: Position, n: nat, q: Position, k: nat)
    requires p.written <= q.written && n <= k
    ensures s.SealableFrom(p) ==> s.SealableFrom(q)
    ensures s.cipher.AcceptsFrom(n) ==> s.cipher.AcceptsFrom(k)
  {
  }

  /** Every call of the cipher made for a packet sealed one of its records, but for the refused one that ends it. */
  lemma {:induction false} PacketCounts(s: Setting, p: Position, n: nat, room: nat)
    requires s.cipher.Bounded() && s.Within(p)
    ensures var k := PacketAt(s, p, n, room);
            && (k.res != Failed ==> k.sealed == n + |k.rs|)
            && (k.res == Failed && s.SealableFrom(p) ==> k.sealed == n + |k.rs| + 1 && !s.cipher.AcceptsFrom(n))
            && (k.res == Failed ==> n + |k.rs| <= k.sealed <= n + |k.rs| + 1)
    decreases |s.messages| - p.written
  {
    hide Follow, Next, Cipher.Bounded, Setting.Within, Setting.SealableFrom, Cipher.AcceptsFrom, BodyOf;
    WithinBound(s, p);
    if p.written < |s.messages| {
      Causes(s, p, n, room);
      if Next(s, p, n, room).Take? {
        NextFollows(s, p, n, room);
        var r, q := Next(s, p, n, room).r, Next(s, p, n, room).next;
        if q.written != p.written {
          PacketCounts(s, q, n + 1, room - r.wireLen);
          Later(s, p, n, q, n + 1);
        }
      }
    }
  }

  lemma WithinBound(s: Setting, p: Position)
    requires s.Within(p)
    ensures p.written <= |s.messages|
    ensures p.offset <= if p.written < |s.messages| then |BodyOf(s.messages[p.written])| else 0
  {
  }

  // ----- The whole pass -----

  datatype FlightResult = Flushed | Unflushed | WriteBlocked | MtuTooSmall | SealFailed | Shutdown

  /** The datagrams sent, the records sealed and not sent though the position passed them, and where it ends. */
  datatype Pass = Pass(sent: seq<seq<Record>>, lost: seq<Record>, pos: Position, sealed: nat, attempts: nat,
                       res: FlightResult)
  {
    function After(before: seq<seq<Record>>): Pass {
      Pass(before + sent, lost, pos, sealed, attempts, res)
    }
  }

  /** The pass from position p on, with the n-th call of the cipher and the a-th write next. */
  function PassAt(s: Setting, mtu: nat, p: Position, n: nat, a: nat): (x: Pass)
    requires s.cipher.Bounded() && s.Within(p)
    ensures s.Within(x.pos)
    decreases |s.messages| - p.written, if p.written < |s.messages| then |BodyOf(s.messages[p.written])| - p.offset else 0
  {
    if p.written == |s.messages| then Pass([], [], p, n, a, Flushed)
    else
      var k := PacketAt(s, p, n, mtu);
      if k.res == Failed then Pass([], k.rs, k.pos, k.sealed, a, SealFailed)
      else if k.rs == [] then Pass([], [], p, k.sealed, a, MtuTooSmall)
      else if !s.transport(a) then Pass([], [], p, k.sealed, a + 1, WriteBlocked)
      else PassAt(s, mtu, k.pos, k.sealed, a + 1).After([k.rs])
  }

  /** One turn of the loop over packets. */
  lemma PassStep(s: Setting, mtu: nat, p: Position, n: nat, a: nat, before: seq<seq<Record>>)
    requires s.cipher.Bounded() && s.Within(p) && p.written < |s.messages|
    ensures var x, k := PassAt(s, mtu, p, n, a).After(before), PacketAt(s, p, n, mtu);
            if k.res == Failed then x == Pass(before, k.rs, k.pos, k.sealed, a, SealFailed)
            else if k.rs == [] then x == Pass(before, [], p, k.sealed, a, MtuTooSmall)
            else if !s.transport(a) then x == Pass(before, [], p, k.sealed, a + 1, WriteBlocked)
            else x == PassAt(s, mtu, k.pos, k.sealed, a + 1).After(before + [k.rs])
  {
    hide PacketAt, Cipher.Bounded, Setting.Within;
    WithinBound(s, p);
    var k := PacketAt(s, p, n, mtu);
    assert before + [] == before;
    if k.res != Failed && k.rs != [] && s.transport(a) {
      var rest := PassAt(s, mtu, k.pos, k.sealed, a + 1);
      assert before + ([k.rs] + rest.sent) == (before + [k.rs]) + rest.sent;
    }
  }

  lemma PassEnd(s: Setting, mtu: nat, p: Position, n: nat, a: nat, before: seq<seq<Record>>)
    requires s.cipher.Bounded() && s.Within(p) && p.written == |s.messages|
    ensures PassAt(s, mtu, p, n, a).After(before) == Pass(before, [], p, n, a, Flushed)
  {
  }

  ghost predicate Fits(mtu: nat, d: seq<Record>) {
    d != [] && WireLen(d) <= mtu
  }

  /** What is sent, and then what is lost, is exactly the pieces from the start of the pass to its end. */
  lemma {:induction false} PassFollows(s: Setting, mtu: nat, p: Position, n: nat, a: nat)
    requires s.cipher.Bounded() && s.Within(p)
    ensures var x := PassAt(s, mtu, p, n, a);
            && FollowAll(s.messages, p, Records(x.sent) + x.lost) == Some(x.pos)
            && (forall d | d in x.sent :: Fits(mtu, d))
            && (x.lost != [] ==> x.res == SealFailed)
            && (x.res == Flushed ==> x.pos == Position(|s.messages|, 0))
            && (x.res == SealFailed && s.SealableFrom(p) ==> !s.cipher.AcceptsFrom(n))
            && (x.res == MtuTooSmall ==>
                  x.pos.written < |s.messages| && mtu < s.Room(s.messages[x.pos.written]))
            && (x.res == WriteBlocked ==> x.attempts > a && !s.transport(x.attempts - 1))
            && x.res in {Flushed, WriteBlocked, MtuTooSmall, SealFailed}
    decreases |s.messages| - p.written, if p.written < |s.messages| then |BodyOf(s.messages[p.written])| - p.offset else 0
  {
    hide FollowAll, Follow, PacketAt, Fits, Records, Cipher.Bounded, Setting.Within, Setting.SealableFrom,
         Cipher.AcceptsFrom, BodyOf, WireLen;
    WithinBound(s, p);
    if p.written == |s.messages| {
      NothingRecorded(s, p);
    } else {
      var k := PacketAt(s, p, n, mtu);
      PacketFollows(s, p, n, mtu);
      PacketCounts(s, p, n, mtu);
      NothingRecorded(s, p);
      if k.res == Failed {
        assert Records([]) + k.rs == k.rs;
      } else if k.rs != [] && s.transport(a) {
        PassFollows(s, mtu, k.pos, k.sealed, a + 1);
        Later(s, p, n, k.pos, k.sealed);
        var rest := PassAt(s, mtu, k.pos, k.sealed, a + 1);
        RecordsCons(k.rs, rest.sent);
        assert k.rs + (Records(rest.sent) + rest.lost) == (k.rs + Records(rest.sent)) + rest.lost;
        FollowConcat(s.messages, p, k.rs, Records(rest.sent) + rest.lost);
        FitsIntro(mtu, k.rs);
      }
    }
  }

  lemma FitsIntro(mtu: nat, d: seq<Record>)
    requires d != [] && WireLen(d) <= mtu
    ensures Fits(mtu, d)
  {
  }

  lemma NothingRecorded(s: Setting, p: Position)
    ensures Records([]) == [] && FollowAll(s.messages, p, []) == Some(p)
    ensures Records([]) + [] == []
  {
  }

  // ----- Lost records -----

  /**
   * Every record the cipher was called for is on the wire or lost, but for a refused one. So a pass that fails loses
   * something exactly when the refused record was not the first of its packet.
   */
  lemma {:induction false} LostExactly(s: Setting, mtu: nat, p: Position, n: nat, a: nat)
    requires s.cipher.Bounded() && s.Within(p)
    ensures var x := PassAt(s, mtu, p, n, a);
            x.res == SealFailed && s.SealableFrom(p) ==>
              && x.sealed == n + |Records(x.sent)| + |x.lost| + 1
              && (x.lost != [] <==> x.sealed - 1 != n + |Records(x.sent)|)
    decreases |s.messages| - p.written, if p.written < |s.messages| then |BodyOf(s.messages[p.written])| - p.offset else 0
  {
    hide FollowAll, Follow, PacketAt, Records, Cipher.Bounded, Setting.Within, Setting.SealableFrom, BodyOf,
         Cipher.AcceptsFrom;
    WithinBound(s, p);
    if p.written != |s.messages| {
      var k := PacketAt(s, p, n, mtu);
      PacketCounts(s, p, n, mtu);
      NothingRecorded(s, p);
      if k.res != Failed && k.rs != [] && s.transport(a) {
        LostExactly(s, mtu, k.pos, k.sealed, a + 1);
        Later(s, p, n, k.pos, k.sealed);
        RecordsCons(k.rs, PassAt(s, mtu, k.pos, k.sealed, a + 1).sent);
      }
    }
  }

  /** With messages of the current and the previous epoch only and a cipher that refuses nothing, nothing is lost. */
  lemma NothingLost(s: Setting, mtu: nat, p: Position, n: nat, a: nat)
    requires s.cipher.Bounded() && s.Within(p)
    requires s.SealableFrom(p) && s.cipher.AcceptsFrom(n)
    ensures PassAt(s, mtu, p, n, a).res != SealFailed && PassAt(s, mtu, p, n, a).lost == []
  {
    hide FollowAll, Follow, PassAt;
    PassFollows(s, mtu, p, n, a);
  }

  /** The position ends where the written pieces end exactly when nothing is lost. */
  lemma PositionIsWritten(s: Setting, mtu: nat, p: Position, n: nat, a: nat)
    requires s.cipher.Bounded() && s.Within(p)
    ensures var x := PassAt(s, mtu, p, n, a);
            x.lost == [] <==> FollowAll(s.messages, p, Records(x.sent)) == Some(x.pos)
  {
    hide FollowAll, Follow, PassAt, Records;
    var x := PassAt(s, mtu, p, n, a);
    PassFollows(s, mtu, p, n, a);
    assert x.lost == [] ==> Records(x.sent) + x.lost == Records(x.sent);
    FollowPrefix(s.messages, p, Records(x.sent), x.lost);
    FollowConcat(s.messages, p, Records(x.sent), x.lost);
    Advances(s.messages, FollowAll(s.messages, p, Records(x.sent)).value, x.lost);
  }

  /** A refusal of the second record of the first packet: the first record, sealed already, is lost. */
  lemma SecondRefused(s: Setting, mtu: nat, p: Position, n: nat, a: nat)
    requires s.cipher.Bounded() && s.Within(p) && p.written + 1 < |s.messages|
    requires Next(s, p, n, mtu).Take? && Next(s, p, n, mtu).next == Position(p.written + 1, 0)
    requires Next(s, Position(p.written + 1, 0), n + 1, mtu - Next(s, p, n, mtu).r.wireLen).Refusal?
    ensures PassAt(s, mtu, p, n, a)
         == Pass([], [Next(s, p, n, mtu).r], Position(p.written + 1, 0), n + 2, a, SealFailed)
  {
    hide Next;
    NextFollows(s, p, n, mtu);
    var q, room := Position(p.written + 1, 0), mtu - Next(s, p, n, mtu).r.wireLen;
    assert PacketAt(s, q, n + 1, room) == Packet([], q, n + 2, Failed);
  }
}
