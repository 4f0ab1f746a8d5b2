/** The outgoing byte pipeline of a TLS connection: a pending flight, a write buffer and a transport that may take
    only part of what it is offered. */
module TlsWrite {
  import opened Bytes
  import opened TlsBuffer

  const MAX_PLAIN := 16384  // SSL3_RT_MAX_PLAIN_LENGTH
  const INT_MAX := 0x7fff_ffff

  datatype RecordType = ChangeCipherSpec | Alert | Handshake | AppData

  /** A record that was sealed: its type, what was sealed, and the bytes that came of it. */
  datatype Rec = Rec(typ: RecordType, plaintext: seq<byte>, sealed: seq<byte>)

  /** Everything sealed, in sealing order. */
  function Sealed(log: seq<Rec>): seq<byte> {
    if log == [] then [] else Sealed(log[..|log| - 1]) + log[|log| - 1].sealed
  }

  /** What was sealed in records of one type, in order. */
  function Plain(log: seq<Rec>, typ: RecordType): seq<byte> {
    if log == [] then []
    else
      var r := log[|log| - 1];
      Plain(log[..|log| - 1], typ) + if r.typ == typ then r.plaintext else []
  }

  lemma Append(log: seq<Rec>, r: Rec, typ: RecordType)
    ensures Sealed(log + [r]) == Sealed(log) + r.sealed
    ensures Plain(log + [r], typ) == Plain(log, typ) + if r.typ == typ then r.plaintext else []
  {
    assert (log + [r])[..|log|] == log;
  }

  lemma Moved(wire: seq<byte>, held: seq<byte>, n: nat, rest: seq<byte>)
    requires n <= |held|
    ensures (wire + held[..n]) + held[n..] + rest == wire + held + rest
  {
    assert held == held[..n] + held[n..];
  }

  lemma Pushed(wire: seq<byte>, held: seq<byte>, x: seq<byte>)
    ensures wire + (held + x) + [] == (wire + held + []) + x
  {
  }

  lemma MovedWhole(wire: seq<byte>, rest: seq<byte>)
    ensures wire + [] + rest == wire + rest + []
  {
  }

  lemma Behind(a: seq<byte>, b: seq<byte>, c: seq<byte>, x: seq<byte>)
    ensures a + b + (c + x) == (a + b + c) + x
  {
  }

  class TlsWriter {
    const buffer: SSLBuffer                                  // write_buffer
    var pendingFlight: Option<seq<byte>>
    var pendingOffset: nat
    var wnum: nat
    var wpendTot: nat
    var wpendBuf: nat  // the address that was passed in
    var wpendType: RecordType
    var wpendRet: nat
    var wpendPending: bool
    var maxSend: nat                                         // max_send_fragment
    const movingBuffer: bool                                 // SSL_MODE_ACCEPT_MOVING_WRITE_BUFFER
    const partialWrites: bool                                // SSL_MODE_ENABLE_PARTIAL_WRITE
    var seals: nat                                           // records sealed or attempted
    var attempts: nat                                        // writes and flushes offered to the transport
    var wire: seq<byte>                                      // what the transport has taken

    const overhead: nat -> nat                               // SSL_max_seal_overhead at a record
    const seal: (nat, RecordType, seq<byte>) -> Option<seq<byte>>
    const transport: (nat, nat) -> int                       // result of BIO_write for a length
    const flushes: nat -> bool                               // whether BIO_flush succeeds

    ghost var log: seq<Rec>
    ghost var app: seq<byte>  // the application bytes sealed, in order
    ghost var reported: nat   // how many of them were reported to the caller as written

    /** What is assumed of a cipher and of the transport: a bounded overhead, and no more taken than offered. */
    ghost predicate Bounded() {
      && (forall k, t, pt :: seal(k, t, pt).Some? ==> |seal(k, t, pt).value| <= |pt| + overhead(k))
      && (forall k, n: nat :: transport(k, n) <= n)
    }

    ghost function Rest(): seq<byte>
      reads `pendingFlight, `pendingOffset
    {
      if pendingFlight.None? || pendingOffset > |pendingFlight.value| then [] else pendingFlight.value[pendingOffset..]
    }

    /** Application bytes sealed in a record that is still being written. */
    ghost function AppPending(): nat
      reads `wpendPending, `wpendType, `wpendRet
    {
      if wpendPending && wpendType == AppData then wpendRet else 0
    }

    ghost predicate Valid()
      reads this, buffer, buffer.buf
    {
      Piped() && reported + wnum + AppPending() <= |app|
    }

    /** What holds of records and their bytes, whatever callers have been told. */
    ghost predicate Piped()
      reads buffer, buffer.buf, `pendingFlight, `pendingOffset, `wpendTot, `wpendRet, `wpendPending, `maxSend, `wire,
            `log, `app
    {
      && Bounded() && buffer.Valid()
      && 512 <= maxSend <= MAX_PLAIN
      && pendingOffset <= (if pendingFlight.None? then 0 else |pendingFlight.value|)
      && (wpendPending ==> wpendTot == wpendRet && 0 < wpendRet <= MAX_PLAIN)
      && Fifo()
      && app == Plain(log, AppData)
    }

    /** One queue: the wire, then the write buffer, then the pending flight, is all that was sealed, in order. */
    ghost predicate Fifo()
      requires buffer.Valid()
      reads `wire, `log, `pendingFlight, `pendingOffset, buffer, buffer.buf
    {
      wire + buffer.Contents() + Rest() == Sealed(log)
    }

    twostate predicate SameBlock()
      reads buffer
    {
      buffer.buf == null || buffer.buf == old(buffer.buf) || fresh(buffer.buf)
    }

    /** Every sealed application byte is reported, or counted as progress of the call being retried. */
    ghost predicate InStep()
      reads `reported, `wnum, `app, `wpendPending, `wpendType, `wpendRet
    {
      reported + wnum + AppPending() == |app|
    }

    /** A call that offers data has written tot bytes of it: what is sealed and not reported is those and the record
        still pending, and they are the first bytes of the data. */
    ghost predicate Progress(addr: nat, data: seq<byte>, tot: nat)
      reads `reported, `app, `wpendPending, `wpendType, `wpendRet, `wpendBuf
    {
      && reported + tot + AppPending() == |app|
      && app[reported..] <= data
      && (wpendPending ==> wpendType == AppData && (movingBuffer || wpendBuf == addr + tot))
    }

    /** A correct retry offers again what is sealed but not reported, at the same address unless moving is allowed. */
    ghost predicate Correct(addr: nat, data: seq<byte>)
      reads `reported, `wnum, `app, `wpendPending, `wpendType, `wpendRet, `wpendBuf
    {
      Progress(addr, data, wnum)
    }

    constructor (overhead: nat -> nat, seal: (nat, RecordType, seq<byte>) -> Option<seq<byte>>,
                 transport: (nat, nat) -> int, flushes: nat -> bool, movingBuffer: bool, partialWrites: bool)
      requires forall k, t, pt :: seal(k, t, pt).Some? ==> |seal(k, t, pt).value| <= |pt| + overhead(k)
      requires forall k, n: nat :: transport(k, n) <= n
      ensures Valid() && InStep() && log == [] && fresh(buffer) && buffer.buf == null
    {
      buffer := new SSLBuffer();
      pendingFlight, pendingOffset, wnum := None, 0, 0;
      wpendTot, wpendBuf, wpendType, wpendRet, wpendPending := 0, 0, AppData, 0, false;
      maxSend, seals, attempts, wire := MAX_PLAIN, 0, 0, [];
      this.overhead, this.seal, this.transport, this.flushes := overhead, seal, transport, flushes;
      this.movingBuffer, this.partialWrites := movingBuffer, partialWrites;
      log, app, reported := [], [], 0;
    }

    // ----- Why a call may fail -----

    /** The transport was offered the buffer, after `since` offers, and took nothing. */
    predicate Blocked(since: nat)
      reads `attempts, buffer`size
    {
      attempts > since && buffer.size > 0 && transport(attempts - 1, buffer.size) <= 0
    }

    /** The transport was offered the flight and took nothing. */
    ghost predicate FlightBlocked(since: nat)
      reads `attempts, `pendingFlight, `pendingOffset
    {
      attempts > since && Rest() != [] && transport(attempts - 1, |Rest()|) <= 0
    }

    /** The cipher was given this record, after `since` others, and refused it. */
    predicate SealRefused(since: nat, typ: RecordType, plaintext: seq<byte>)
      reads `seals
    {
      seals > since && seal(seals - 1, typ, plaintext).None?
    }

    /** The flight has been moved into the buffer and no record is pending: what a refused record leaves behind. */
    predicate Jammed()
      reads `wpendPending, buffer`size
    {
      !wpendPending && buffer.size > 0
    }

    /** The flight and one more record would be more than a buffer may hold. */
    ghost predicate Overfull(n: nat)
      reads `seals, `pendingFlight, `pendingOffset
    {
      n + overhead(seals) + |Rest()| > MAX_CAP
    }

    /** The check for bad retries in ssl3_write_pending. */
    predicate Mismatch(typ: RecordType, addr: nat, len: nat)
      reads `wpendTot, `wpendBuf, `wpendType
    {
      wpendTot > len || (!movingBuffer && wpendBuf != addr) || wpendType != typ
    }

    /** Why a record could not be written, in a call that began after so many offers and seals. */
    ghost predicate Stuck(typ: RecordType, addr: nat, data: seq<byte>, offers: nat, sealings: nat)
      reads `attempts, `seals, `wpendPending, `wpendTot, `wpendBuf, `wpendType, `pendingFlight, `pendingOffset,
            buffer`size
    {
      || data == [] || Blocked(offers) || SealRefused(sealings, typ, data)
      || (wpendPending && Mismatch(typ, addr, |data|))
      || Jammed() || (!wpendPending && Overfull(|data|))
    }

    /** The limit has been lowered below the size of the record that is still pending. */
    predicate Outgrown()
      reads `wpendPending, `wpendRet, `maxSend
    {
      wpendPending && wpendRet > maxSend
    }

    /** A pending record that no retry at this address can complete. */
    predicate Unfit(addr: nat)
      reads `wpendPending, `wpendRet, `wpendBuf, `maxSend
    {
      wpendPending && ((!movingBuffer && wpendBuf != addr) || wpendRet > maxSend)
    }

    lemma UnfitMismatches(addr: nat, len: nat)
      requires Piped() && Unfit(addr) && len <= maxSend
      ensures wpendPending && Mismatch(AppData, addr, len)
    {
    }

    /** What a correct retry may fail for: never for how much data there is. */
    ghost predicate Excused(data: seq<byte>, offers: nat, sealings: nat)
      requires wnum <= |data|
      reads `attempts, `seals, `wnum, `wpendPending, `wpendRet, `maxSend, `pendingFlight, `pendingOffset, buffer`size
    {
      || wnum == |data| || Blocked(offers) || Outgrown() || Jammed()
      || SealRefused(sealings, AppData, Chunk(data, wnum)) || (!wpendPending && Overfull(|Chunk(data, wnum)|))
    }

    /** A retry that repeats its data can be refused only for a limit that was lowered in between. */
    lemma CorrectIsExcused(addr: nat, data: seq<byte>, offers: nat, sealings: nat)
      requires Piped() && Correct(addr, data) && wnum <= |data|
      requires Stuck(AppData, addr + wnum, Chunk(data, wnum), offers, sealings)
      ensures Excused(data, offers, sealings)
    {
      hide Fifo, Bounded, Blocked, SealRefused, Overfull, Jammed, SSLBuffer.Valid;
    }

    /** What a later turn of a call was stuck for, the call was. */
    lemma StuckSince(addr: nat, data: seq<byte>, offers: nat, sealings: nat, from: nat, of: nat)
      requires Stuck(AppData, addr, data, offers, sealings) && from <= offers && of <= sealings
      ensures Stuck(AppData, addr, data, from, of)
      ensures SealRefused(sealings, AppData, data) ==> SealRefused(of, AppData, data)
    {
      hide Overfull, Jammed;
    }

    /** What ssl3_write_app_data offers next. */
    function Chunk(data: seq<byte>, tot: nat): seq<byte>
      requires tot <= |data|
      reads `maxSend
    {
      if |data| - tot > maxSend then data[tot..tot + maxSend] else data[tot..]
    }

    /** What was sealed since is cut at the limit: every record but the last holds as much as it may, and the last does
        too unless it ends the data, of which `end` bytes are sealed. */
    ghost predicate Cut(data: seq<byte>, end: nat, before: seq<Rec>)
      reads `log, `maxSend
    {
      && CutUp(before, log, maxSend)
      && (Shortened(before, log, maxSend) ==> |data| == end)
    }

    /** A chunk more, or nothing. */
    lemma CutNext(data: seq<byte>, tot: nat, was: seq<Rec>, before: seq<Rec>)
      requires tot <= |data| && AllFull(before, was, maxSend) && maxSend > 0
      requires log == was || (OneMore(was, log, AppData, Chunk(data, tot)) && |Chunk(data, tot)| > 0)
      ensures Cut(data, tot + |Chunk(data, tot)|, before)
      ensures log == was ==> AllFull(before, log, maxSend) && forall end :: Cut(data, end, before)
      ensures tot + |Chunk(data, tot)| < |data| ==> AllFull(before, log, maxSend)
    {
      hide CutUp, AllFull, Shortened, OneMore;
      if log == was {
        CutSame(before, was, maxSend);
      } else {
        CutOnce(before, was, log, maxSend, Chunk(data, tot));
      }
    }

    /** tls_seal_record. */
    method SealRecord(typ: RecordType, plaintext: seq<byte>) returns (r: Option<seq<byte>>)
      requires Bounded()
      modifies this`seals
      ensures seals == old(seals) + 1 && (r.None? <==> SealRefused(old(seals), typ, plaintext))
      ensures r.Some? ==> |r.value| <= |plaintext| + overhead(old(seals))
    {
      r := seal(seals, typ, plaintext);
      seals := seals + 1;
    }

    // ----- Handshake flights -----

    /** The bytes of a new record go behind everything that is pending. */
    method Enqueue(typ: RecordType, plaintext: seq<byte>, sealed: seq<byte>)
      requires Piped() && typ != AppData
      modifies this`pendingFlight, this`log
      ensures Piped() && log == old(log) + [Rec(typ, plaintext, sealed)]
    {
      hide Sealed, Plain, Bounded, SSLBuffer.Contents, SSLBuffer.Valid;
      ghost var r := Rec(typ, plaintext, sealed);
      Behind(wire, buffer.Contents(), Rest(), sealed);
      Append(log, r, AppData);
      var flight := if pendingFlight.None? then [] else pendingFlight.value;
      assert (flight + sealed)[pendingOffset..] == Rest() + sealed;
      pendingFlight := Some(flight + sealed);
      log := log + [r];
    }

    method OpenFlight()
      requires Piped()
      modifies this`pendingFlight
      ensures Piped() && pendingFlight.Some?
    {
      hide Sealed, Plain, Bounded, SSLBuffer.Contents, SSLBuffer.Valid, Rest;
      if pendingFlight.None? {
        RestNone();
        pendingFlight := Some([]);
        RestNone();
      }
    }

    lemma RestNone()
      ensures pendingFlight.None? || pendingFlight.value == [] ==> Rest() == []
    {
    }

    lemma PipedBounded()
      requires Piped()
      ensures Bounded() && 512 <= maxSend <= MAX_PLAIN
    {
    }

    /** add_record_to_flight. */
    method AddRecord(typ: RecordType, plaintext: seq<byte>) returns (ok: bool)
      requires Piped() && typ != AppData
      modifies this`pendingFlight, this`seals, this`log
      ensures Piped()
      ensures seals == old(seals) + 1
      ensures !ok ==> log == old(log) && SealRefused(old(seals), typ, plaintext)
      ensures ok ==> exists r: Rec :: r.typ == typ && r.plaintext == plaintext && log == old(log) + [r]
    {
      hide Sealed, Plain, Piped;
      PipedBounded();
      OpenFlight();
      var sealed := SealRecord(typ, plaintext);
      if sealed.None? {
        return false;
      }
      Enqueue(typ, plaintext, sealed.value);
      return true;
    }

    /** ssl3_add_message: cut into records of at most the maximal fragment. */
    method AddMessage(msg: seq<byte>) returns (ok: bool)
      requires Piped()
      modifies this`pendingFlight, this`seals, this`log
      ensures Piped()
      ensures old(log) <= log
      ensures forall i | |old(log)| <= i < |log| :: log[i].typ == Handshake && |log[i].plaintext| <= maxSend
      ensures exists k | 0 <= k <= |msg| :: Plain(log, Handshake) == old(Plain(log, Handshake)) + msg[..k]
      ensures !ok ==> exists k | 0 <= k <= |msg| :: SealRefused(old(seals), Handshake, Chunk(msg, k))
      ensures ok ==> |log| > |old(log)| && Plain(log, Handshake) == old(Plain(log, Handshake)) + msg
    {
      hide Sealed, Plain, Piped;
      PipedBounded();
      var rest := msg;
      var first := true;
      while first || rest != []
        invariant Piped() && |rest| <= |msg| && rest == msg[|msg| - |rest|..]
        invariant old(log) <= log && seals >= old(seals)
        invariant first || |log| > |old(log)|
        invariant forall i | |old(log)| <= i < |log| :: log[i].typ == Handshake && |log[i].plaintext| <= maxSend
        invariant Plain(log, Handshake) == old(Plain(log, Handshake)) + msg[..|msg| - |rest|]
        decreases first, |rest|
      {
        first := false;
        var n := if |rest| < maxSend then |rest| else maxSend;
        ghost var was := log;
        var added := AddRecord(Handshake, rest[..n]);
        if !added {
          assert rest[..n] == Chunk(msg, |msg| - |rest|);
          return false;
        }
        Append(was, log[|was|], Handshake);
        assert msg[..|msg| - |rest|] + rest[..n] == msg[..|msg| - |rest| + n];
        rest := rest[n..];
      }
      return true;
    }

    /** ssl3_add_change_cipher_spec. */
    method AddChangeCipherSpec() returns (ok: bool)
      requires Piped()
      modifies this`pendingFlight, this`seals, this`log
      ensures Piped()
      ensures !ok ==> log == old(log) && SealRefused(old(seals), ChangeCipherSpec, [1])
      ensures ok ==> exists r: Rec :: r.typ == ChangeCipherSpec && r.plaintext == [1] && log == old(log) + [r]
    {
      ok := AddRecord(ChangeCipherSpec, [1]);
    }

    lemma FirstBytes(n: nat)
      requires buffer.Valid() && 0 < n <= buffer.size
      ensures buffer.buf != null && buffer.buf[buffer.offset..buffer.offset + n] == buffer.Contents()[..n]
    {
    }

    /** One write of the buffer to the transport, which may take part of it. */
    method OfferBuffer() returns (ret: int)
      requires Piped() && buffer.size > 0
      modifies this`attempts, this`wire, buffer
      ensures Piped() && buffer.buf == old(buffer.buf)
      ensures buffer.size == old(buffer.size) - (if ret > 0 then ret else 0) && attempts == old(attempts) + 1
      ensures ret <= 0 ==> Blocked(old(attempts))
    {
      hide Sealed, Plain;
      ghost var held, rest := buffer.Contents(), Rest();
      ret := transport(attempts, buffer.size);
      attempts := attempts + 1;
      if ret <= 0 {
        return;
      }
      Moved(wire, held, ret, rest);
      FirstBytes(ret);
      var taken := buffer.buf[buffer.offset..buffer.offset + ret];
      wire := wire + taken;
      buffer.Consume(ret);
    }

    /** tls_write_buffer_flush. */
    method FlushBuffer() returns (ret: int)
      requires Piped()
      modifies this`attempts, this`wire, buffer
      ensures Piped() && SameBlock()
      ensures buffer.size <= old(buffer.size) && attempts >= old(attempts)
      ensures ret > 0 ==> buffer.Contents() == []
      ensures ret <= 0 ==> Blocked(old(attempts))
    {
      hide Sealed, Plain;
      while buffer.size > 0
        invariant Piped() && buffer.buf == old(buffer.buf)
        invariant buffer.size <= old(buffer.size) && attempts >= old(attempts)
        decreases buffer.size
      {
        ret := OfferBuffer();
        if ret <= 0 {
          return;
        }
      }
      assert buffer.Contents() == [];
      buffer.Clear();
      return 1;
    }

    /** One write of the flight to the transport; the write buffer has gone first. */
    method OfferFlight() returns (ret: int)
      requires Piped() && buffer.size == 0 && pendingFlight.Some? && pendingOffset < |pendingFlight.value|
      modifies this`attempts, this`wire, this`pendingOffset
      ensures Piped()
      ensures pendingOffset == old(pendingOffset) + (if ret > 0 then ret else 0) && attempts == old(attempts) + 1
      ensures ret <= 0 ==> FlightBlocked(old(attempts))
    {
      hide Sealed, Plain;
      ghost var rest := Rest();
      assert buffer.Contents() == [];
      var offered := pendingFlight.value[pendingOffset..];
      ret := transport(attempts, |offered|);
      attempts := attempts + 1;
      if ret <= 0 {
        return;
      }
      Moved(wire, rest, ret, []);
      wire := wire + offered[..ret];
      pendingOffset := pendingOffset + ret;
      assert Rest() == rest[ret..];
    }

    /** ssl3_flush_flight: after a success everything sealed so far is on the wire. */
    method FlushFlight(shutdown: bool) returns (ret: int)
      requires Piped()
      modifies this`attempts, this`wire, this`pendingFlight, this`pendingOffset, buffer
      ensures Piped() && SameBlock()
      ensures ret > 0 && old(pendingFlight).Some? ==> pendingFlight.None? && wire == Sealed(log)
      ensures old(pendingFlight).Some? && (shutdown || |old(pendingFlight).value| > INT_MAX) ==> ret < 0
      ensures old(pendingFlight).None? ==> ret == 1 && wire == old(wire)
      ensures buffer.size <= old(buffer.size)
      ensures ret <= 0 ==>
                || shutdown || |old(pendingFlight).value| > INT_MAX
                || Blocked(old(attempts)) || FlightBlocked(old(attempts)) || !flushes(attempts)
    {
      hide Sealed, Plain;
      if pendingFlight.None? {
        return 1;
      }
      if shutdown || |pendingFlight.value| > INT_MAX {
        return -1;
      }
      if buffer.size > 0 {
        ret := FlushBuffer();
        if ret <= 0 {
          return;
        }
      }
      while pendingOffset < |pendingFlight.value|
        invariant Piped() && SameBlock() && buffer.size == 0 && pendingFlight == old(pendingFlight)
        invariant attempts >= old(attempts)
        decreases |pendingFlight.value| - pendingOffset
      {
        ret := OfferFlight();
        if ret <= 0 {
          return;
        }
      }
      assert buffer.Contents() == [] && Rest() == [];
      attempts := attempts + 1;
      if !flushes(attempts) {
        return -1;
      }
      pendingFlight, pendingOffset := None, 0;
      return 1;
    }

    // ----- Application data -----

    method Reserve(n: nat) returns (ok: bool)
      requires Piped()
      modifies buffer
      ensures Piped() && SameBlock() && buffer.size == old(buffer.size)
      ensures ok <==> n <= MAX_CAP
      ensures ok ==> buffer.cap >= n
    {
      hide Sealed, Plain;
      ok := buffer.EnsureCap(n);
    }

    /** The unflushed flight becomes the start of the write buffer. */
    method MoveFlight()
      requires Piped() && buffer.size == 0 && |Rest()| <= buffer.cap
      modifies this`pendingFlight, this`pendingOffset, buffer`size, buffer.buf
      ensures Piped() && pendingFlight.None? && buffer.buf == old(buffer.buf) && buffer.cap == old(buffer.cap)
      ensures buffer.size == |old(Rest())|
    {
      hide Sealed, Plain, Bounded;
      assert buffer.Contents() == [];
      if pendingFlight.None? {
        return;
      }
      ghost var rest := Rest();
      MovedWhole(wire, rest);
      buffer.Write(pendingFlight.value[pendingOffset..]);
      assert buffer.Contents() == rest;
      pendingFlight, pendingOffset := None, 0;
    }

    /** The bytes of a new record go behind what the buffer holds. */
    method Push(typ: RecordType, data: seq<byte>, sealed: seq<byte>)
      requires Piped() && pendingFlight.None? && buffer.size + |sealed| <= buffer.cap
      modifies this`log, this`app, buffer`size, buffer.buf
      ensures Piped() && buffer.buf == old(buffer.buf) && log == old(log) + [Rec(typ, data, sealed)]
      ensures app == old(app) + if typ == AppData then data else []
    {
      hide Sealed, Plain;
      ghost var held, r := buffer.Contents(), Rec(typ, data, sealed);
      buffer.Write(sealed);
      Pushed(wire, held, sealed);
      Append(log, r, AppData);
      app := app + if typ == AppData then data else [];
      log := log + [r];
    }

    /** A record sealed behind the flight, in do_ssl3_write. */
    method SealIntoBuffer(typ: RecordType, addr: nat, data: seq<byte>) returns (ok: bool)
      requires Piped() && !wpendPending && pendingFlight.None? && 0 < |data| <= MAX_PLAIN
      requires buffer.size + |data| + overhead(seals) <= buffer.cap
      modifies this`seals, this`log, this`app, this`wpendTot, this`wpendBuf, this`wpendType, this`wpendRet,
               this`wpendPending, buffer`size, buffer.buf
      ensures Piped() && buffer.buf == old(buffer.buf) && seals > old(seals)
      ensures !ok ==> log == old(log) && app == old(app) && !wpendPending && SealRefused(old(seals), typ, data)
      ensures ok ==> wpendPending && wpendRet == |data| && wpendType == typ && wpendBuf == addr
      ensures ok ==> OneMore(old(log), log, typ, data)
      ensures ok ==> app == old(app) + if typ == AppData then data else []
    {
      hide Sealed, Plain, Fifo;
      var sealed := SealRecord(typ, data);
      if sealed.None? {
        return false;
      }
      Push(typ, data, sealed.value);
      wpendTot, wpendBuf, wpendType, wpendRet, wpendPending := |data|, addr, typ, |data|, true;
      return true;
    }

    /** ssl3_write_pending. */
    method WritePending(typ: RecordType, addr: nat, len: nat) returns (ret: int)
      requires Piped() && wpendPending
      modifies this`attempts, this`wire, this`wpendPending, buffer
      ensures Piped() && SameBlock()
      ensures ret > 0 ==> ret == wpendRet && !wpendPending && wpendRet <= len && wpendType == typ && buffer.size == 0
      ensures ret <= 0 ==> wpendPending
      ensures attempts >= old(attempts)
      ensures Mismatch(typ, addr, len) ==> ret == -1 && wire == old(wire) && attempts == old(attempts)
      ensures ret <= 0 ==> Mismatch(typ, addr, len) || Blocked(old(attempts))
    {
      hide Sealed, Plain;
      if Mismatch(typ, addr, len) {
        return -1;
      }
      ret := FlushBuffer();
      if ret <= 0 {
        return;
      }
      wpendPending := false;
      return wpendRet;
    }

    /** The pending record is the one it was. */
    twostate predicate SamePending()
      reads this
    {
      && wpendPending == old(wpendPending) && wpendTot == old(wpendTot) && wpendRet == old(wpendRet)
      && wpendType == old(wpendType) && wpendBuf == old(wpendBuf)
    }

    /** Nothing was sealed and nothing sent. */
    twostate predicate Unmoved()
      reads this
    {
      wire == old(wire) && log == old(log) && app == old(app) && SamePending()
    }

    /** do_ssl3_write. A new record is sealed only when none is pending; a call that fails can be repeated. */
    method DoWrite(typ: RecordType, addr: nat, data: seq<byte>) returns (ret: int)
      requires Piped()
      modifies this`attempts, this`wire, this`seals, this`log, this`app, this`pendingFlight, this`pendingOffset,
               this`wpendTot, this`wpendBuf, this`wpendType, this`wpendRet, this`wpendPending, buffer, buffer.buf
      ensures Piped() && SameBlock()
      ensures ret > 0 ==> !wpendPending && !Jammed()
      ensures old(wpendPending) ==> log == old(log) && app == old(app)
      ensures old(wpendPending) && ret > 0 ==> ret == old(wpendRet) <= |data| && old(wpendType) == typ
      ensures old(wpendPending) && ret <= 0 ==> SamePending()
      ensures old(wpendPending) && old(Mismatch(typ, addr, |data|)) ==> ret == -1 && wire == old(wire)
      ensures !old(wpendPending) && (ret > 0 || wpendPending) ==> app == old(app) + if typ == AppData then data else []
      ensures !old(wpendPending) && ret > 0 ==> ret == |data|
      ensures !old(wpendPending) && wpendPending ==> wpendRet == |data| && wpendType == typ && wpendBuf == addr
      ensures !old(wpendPending) && ret <= 0 && !wpendPending ==> log == old(log) && app == old(app)
      ensures !old(wpendPending) && (ret > 0 || wpendPending) ==> OneMore(old(log), log, typ, data) && data != []
      ensures attempts >= old(attempts) && seals >= old(seals)
      ensures ret <= 0 ==> |data| > MAX_PLAIN || Stuck(typ, addr, data, old(attempts), old(seals))
      ensures Jammed() ==> old(Jammed()) || SealRefused(old(seals), typ, data)
    {
      hide Sealed, Plain, Fifo;
      if wpendPending {
        ret := WritePending(typ, addr, |data|);
        return;
      }
      if |data| > MAX_PLAIN || buffer.size > 0 {
        return -1;
      }
      if |data| == 0 {
        return 0;
      }
      var flightLen := if pendingFlight.None? then 0 else |pendingFlight.value| - pendingOffset;
      var room := Reserve(|data| + overhead(seals) + flightLen);
      if !room {
        return -1;
      }
      MoveFlight();
      var ok := SealIntoBuffer(typ, addr, data);
      if !ok {
        return -1;
      }
      ret := WritePending(typ, addr, |data|);
    }

    /** The next chunk of the data, tot bytes into it, is written; nothing is sealed while a record is pending. */
    method WriteChunk(addr: nat, data: seq<byte>, tot: nat) returns (ret: int)
      requires Piped() && tot <= |data|
      requires reported + tot + AppPending() <= |app|
      modifies this`attempts, this`wire, this`seals, this`log, this`app, this`pendingFlight, this`pendingOffset,
               this`wpendTot, this`wpendBuf, this`wpendType, this`wpendRet, this`wpendPending, buffer, buffer.buf
      ensures Piped() && SameBlock()
      ensures ret > 0 ==> tot + ret <= |data| && !wpendPending && !Jammed()
      ensures old(app) <= app
      ensures reported + tot + (if ret > 0 then ret else 0) + AppPending() - |app|
           == old(reported + tot + AppPending() - |app|)
      ensures old(Progress(addr, data, tot)) ==> Progress(addr, data, tot + if ret > 0 then ret else 0)
      ensures ret > 0 && old(wpendPending) ==> app == old(app) && ret == old(wpendRet)
      ensures ret > 0 && !old(wpendPending) ==> app == old(app) + data[tot..tot + ret]
      ensures ret <= 0 ==> Stuck(AppData, addr + tot, Chunk(data, tot), old(attempts), old(seals))
      ensures log == old(log) || (OneMore(old(log), log, AppData, Chunk(data, tot)) && Chunk(data, tot) != [])
      ensures log != old(log) ==> |Chunk(data, tot)| == if ret > 0 then ret else AppPending()
      ensures attempts >= old(attempts) && seals >= old(seals) && (Outgrown() ==> old(Outgrown()))
      ensures Jammed() ==> old(Jammed()) || SealRefused(old(seals), AppData, Chunk(data, tot))
      ensures old(Unfit(addr + tot)) ==>
                ret == -1 && wire == old(wire) && log == old(log) && app == old(app) && SamePending()
    {
      hide Piped, Stuck, Blocked, SealRefused, Jammed, OneMore, Mismatch, Unfit, SSLBuffer.Valid, SSLBuffer.Contents;
      PipedBounded();
      var n := |data| - tot;
      var nw := if n > maxSend then maxSend else n;
      if Unfit(addr + tot) {
        UnfitMismatches(addr + tot, nw);
      }
      Extended(app, reported, data, tot, nw);
      assert data[tot..tot + nw] == Chunk(data, tot);
      ret := DoWrite(AppData, addr + tot, data[tot..tot + nw]);
    }

    /** One turn of the loop of ssl3_write_app_data, in a call that began with this log and after so many offers and
        seals. */
    method WriteTurn(addr: nat, data: seq<byte>, tot: nat, ghost before: seq<Rec>, ghost offers: nat,
                     ghost sealings: nat)
      returns (ret: int)
      requires Piped() && tot <= |data|
      requires AllFull(before, log, maxSend) && offers <= attempts && sealings <= seals
      requires reported + tot + AppPending() <= |app|
      modifies this`attempts, this`wire, this`seals, this`log, this`app, this`pendingFlight, this`pendingOffset,
               this`wpendTot, this`wpendBuf, this`wpendType, this`wpendRet, this`wpendPending, buffer, buffer.buf
      ensures Piped() && SameBlock()
      ensures ret > 0 ==> tot + ret <= |data| && !wpendPending && !Jammed()
      ensures old(app) <= app
      ensures reported + tot + (if ret > 0 then ret else 0) + AppPending() - |app|
           == old(reported + tot + AppPending() - |app|)
      ensures old(Progress(addr, data, tot)) ==> Progress(addr, data, tot + if ret > 0 then ret else 0)
      ensures ret > 0 && old(wpendPending) ==> app == old(app) && ret == old(wpendRet)
      ensures ret > 0 && !old(wpendPending) ==> app == old(app) + data[tot..tot + ret]
      ensures ret <= 0 ==> Stuck(AppData, addr + tot, Chunk(data, tot), offers, sealings)
      ensures Cut(data, tot + if ret > 0 then ret else AppPending(), before)
      ensures ret > 0 && tot + ret < |data| ==> AllFull(before, log, maxSend)
      ensures offers <= attempts && sealings <= seals && (Outgrown() ==> old(Outgrown()))
      ensures Jammed() ==> ret <= 0 && (old(Jammed()) || SealRefused(sealings, AppData, Chunk(data, tot)))
      ensures old(Unfit(addr + tot)) ==>
                ret == -1 && wire == old(wire) && log == old(log) && app == old(app) && SamePending()
    {
      hide Piped, Stuck, Blocked, SealRefused, Jammed, OneMore, CutUp, AllFull, Shortened, Cut, Mismatch, Unfit,
           Outgrown, Chunk, Progress, SSLBuffer.Valid, SSLBuffer.Contents;
      PipedBounded();
      ghost var was, offered, sealed := log, attempts, seals;
      ret := WriteChunk(addr, data, tot);
      if ret <= 0 {
        StuckSince(addr + tot, Chunk(data, tot), offered, sealed, offers, sealings);
      }
      CutNext(data, tot, was, before);
    }

    /** The loop of ssl3_write_app_data from tot bytes on. */
    method WriteLoop(addr: nat, data: seq<byte>, tot: nat) returns (ret: int)
      requires Piped() && tot <= |data| && wnum == 0
      requires reported + tot + AppPending() <= |app|
      modifies this, buffer, buffer.buf
      ensures Piped() && SameBlock()
      ensures ret > 0 ==> wnum == 0 && !wpendPending && !Jammed() && ret <= |data| && reported == old(reported) + ret
      ensures ret <= 0 ==>
                && wnum <= |data| && reported == old(reported)
                && Stuck(AppData, addr + wnum, Chunk(data, wnum), old(attempts), old(seals))
      ensures maxSend == old(maxSend) && Cut(data, if ret > 0 then ret else wnum + AppPending(), old(log))
      ensures Outgrown() ==> old(Outgrown())
      ensures Jammed() ==> old(Jammed()) || (wnum <= |data| && SealRefused(old(seals), AppData, Chunk(data, wnum)))
      ensures reported + wnum + AppPending() - |app| == old(reported + tot + AppPending() - |app|)
      ensures old(app) <= app
      ensures old(Progress(addr, data, tot)) && ret > 0 ==>
                app[old(reported)..] == data[..ret] && (partialWrites || ret == |data|)
      ensures old(Progress(addr, data, tot)) && ret <= 0 ==> Progress(addr, data, wnum)
      ensures tot == 0 && ret > 0 ==> Grown(old(app), app, data, if old(wpendPending) then old(wpendRet) else 0, ret)
      ensures old(Unfit(addr + tot)) ==> ret == -1 && wnum == tot && Unmoved()
    {
      hide Piped, Stuck, Blocked, SealRefused, Jammed, AllFull, Cut, Grown, Chunk;
      NothingCut(log, maxSend);
      var now := tot;
      ghost var first, p := true, if wpendPending then wpendRet else 0;
      while true
        invariant Piped() && SameBlock() && wnum == 0 && now <= |data| && reported == old(reported)
        invariant reported + now + AppPending() - |app| == old(reported + tot + AppPending() - |app|)
        invariant old(app) <= app && attempts >= old(attempts) && seals >= old(seals)
        invariant maxSend == old(maxSend) && AllFull(old(log), log, maxSend)
        invariant (Jammed() ==> first && old(Jammed())) && (Outgrown() ==> old(Outgrown()))
        invariant old(Progress(addr, data, tot)) ==> Progress(addr, data, now)
        invariant first ==> now == tot && Unmoved()
        invariant old(Unfit(addr + tot)) ==> first
        invariant !first ==> !wpendPending && (tot == 0 ==> Grown(old(app), app, data, p, now))
        decreases |data| - now
      {
        ghost var was := app;
        ret := WriteTurn(addr, data, now, old(log), old(attempts), old(seals));
        if ret <= 0 {
          wnum := now;
          return;
        }
        GrowMore(old(app), was, app, data, p, now, ret);
        first := false;
        if now + ret == |data| || partialWrites {
          reported := reported + now + ret;
          return now + ret;
        }
        now := now + ret;
      }
    }

    /** ssl3_write_app_data. With correct retries each application byte is sealed exactly once, in order. */
    method WriteApp(addr: nat, data: seq<byte>, shutdown: bool) returns (ret: int)
      requires Valid()
      modifies this, buffer, buffer.buf
      ensures Valid() && SameBlock()
      ensures ret <= |data|
      ensures old(app) <= app
      ensures old(Correct(addr, data)) && ret > 0 ==>
                && reported == old(reported) + ret == |app|
                && app[old(reported)..] == data[..ret]
                && (partialWrites || ret == |data|)
                && wnum == 0 && !wpendPending
      ensures old(Correct(addr, data)) && ret <= 0 ==> Correct(addr, data) && reported == old(reported)
      ensures ret <= 0 ==>
                || shutdown || |data| < old(wnum)
                || (wnum <= |data| && Stuck(AppData, addr + wnum, Chunk(data, wnum), old(attempts), old(seals)))
      ensures old(Correct(addr, data)) && !shutdown && ret <= 0 ==>
                wnum <= |data| && Excused(data, old(attempts), old(seals))
      ensures Jammed() ==> old(Jammed()) || (wnum <= |data| && SealRefused(old(seals), AppData, Chunk(data, wnum)))
      ensures maxSend == old(maxSend) && Cut(data, if ret > 0 then ret else wnum + AppPending(), old(log))
      ensures Outgrown() ==> old(Outgrown())
      ensures shutdown ==> ret == -1 && wnum == old(wnum) && reported == old(reported) && Unmoved()
      ensures !shutdown && |data| < old(wnum) ==>
                ret == -1 && wnum == 0 && reported == old(reported) && Unmoved()
      ensures old(InStep()) && !shutdown ==> (InStep() <==> |data| >= old(wnum))
      ensures old(wnum) == 0 && ret > 0 ==>
                && Grown(old(app), app, data, if old(wpendPending) then old(wpendRet) else 0, ret)
                && reported == old(reported) + ret
      ensures !shutdown && |data| >= old(wnum) && old(Unfit(addr + wnum)) ==>
                ret == -1 && wnum == old(wnum) && reported == old(reported) && Unmoved()
    {
      hide Piped, Stuck, Blocked, SealRefused, Jammed, Grown;
      if shutdown {
        return -1;
      }
      var tot := wnum;
      wnum := 0;
      if |data| < tot {
        return -1;
      }
      ret := WriteLoop(addr, data, tot);
      if ret <= 0 && old(Correct(addr, data)) {
        CorrectIsExcused(addr, data, old(attempts), old(seals));
      }
    }

    // ----- What a retry with too little data costs -----

    /** With no record pending, the progress made so far is forgotten: the next call, correct as it is, seals again what
        had been sealed already. */
    method ShortRetryRepeats(addr: nat, data: seq<byte>) returns (ret: int)
      requires Valid() && Correct(addr, data) && wnum > 0 && !wpendPending
      modifies this, buffer, buffer.buf
      ensures old(app[reported..]) == data[..old(wnum)]
      ensures ret > 0 ==> ret <= |data| && app == old(app) + data[..ret]
    {
      hide Piped, Stuck, Blocked, SealRefused;
      ghost var again := app[reported..];
      assert |again| == wnum && again == data[..wnum];
      ret := WriteApp(addr, [], false);
      ret := WriteApp(addr, data, false);
    }

    /** With a record pending in a buffer that may not move, every later call at that address is refused, and nothing
        more is sealed or sent. */
    method ShortRetryRefused(addr: nat, data: seq<byte>, retries: seq<seq<byte>>) returns (rets: seq<int>)
      requires Valid() && Correct(addr, data) && wnum > 0 && wpendPending && !movingBuffer
      modifies this, buffer, buffer.buf
      ensures |rets| == |retries| && forall i | 0 <= i < |rets| :: rets[i] == -1
      ensures Valid() && Unmoved() && reported == old(reported) && wnum == 0
    {
      hide Piped, Stuck, Blocked, SealRefused, InStep;
      var ret := WriteApp(addr, [], false);
      rets := [];
      for i := 0 to |retries|
        invariant Valid() && SameBlock() && Unmoved() && reported == old(reported) && wnum == 0
        invariant |rets| == i && forall k | 0 <= k < i :: rets[k] == -1
      {
        ret := WriteApp(addr, retries[i], false);
        rets := rets + [ret];
      }
    }

    /** With a record pending in a buffer that may move, the next call reports that record as the first bytes of the data,
        which it does not hold, and the reports stay behind by the progress forgotten. */
    method ShortRetryMisreports(addr: nat, data: seq<byte>) returns (ret: int)
      requires Valid() && Correct(addr, data) && wnum > 0 && wpendPending && movingBuffer
      modifies this, buffer, buffer.buf
      ensures old(app[reported..]) == data[..old(wnum + wpendRet)]
      ensures ret > 0 ==>
                && old(wpendRet) <= ret <= |data|
                && app == old(app) + data[old(wpendRet)..ret]
                && reported == old(reported) + ret && reported + old(wnum) == |app|
    {
      hide Piped, Stuck, Blocked, SealRefused;
      ghost var again := app[reported..];
      assert |again| == wnum + wpendRet && again == data[..wnum + wpendRet];
      ret := WriteApp(addr, [], false);
      ret := WriteApp(addr, data, false);
    }

    /** SSL_set_max_send_fragment. */
    method SetMaxSendFragment(max: nat)
      requires Valid()
      modifies `maxSend
      ensures Valid() && maxSend == if max < 512 then 512 else if max > MAX_PLAIN then MAX_PLAIN else max
    {
      hide Bounded, Fifo, Plain, Sealed;
      maxSend := if max < 512 then 512 else if max > MAX_PLAIN then MAX_PLAIN else max;
    }

    /** With a limit lowered below the record that is pending, correct retries are refused, and nothing is sealed or sent,
        until it is raised again. */
    method LoweredLimitRefused(addr: nat, data: seq<byte>, max: nat, retries: nat) returns (rets: seq<int>)
      requires Valid() && Correct(addr, data) && wpendPending && max < wpendRet && 512 < wpendRet
      modifies this, buffer, buffer.buf
      ensures |rets| == retries && forall i | 0 <= i < |rets| :: rets[i] == -1
      ensures Valid() && Correct(addr, data) && Unmoved() && reported == old(reported) && wnum == old(wnum)
    {
      hide Bounded, Fifo, Stuck, Blocked, SealRefused, SSLBuffer.Valid, Plain;
      SetMaxSendFragment(max);
      rets := [];
      for i := 0 to retries
        invariant Valid() && SameBlock() && Unmoved() && reported == old(reported) && wnum == old(wnum)
        invariant Correct(addr, data) && Unfit(addr + wnum)
        invariant |rets| == i && forall k | 0 <= k < i :: rets[k] == -1
      {
        var ret := WriteApp(addr, data, false);
        rets := rets + [ret];
      }
    }

    /** A caller that repeats the call until all is reported, with handshake flights added and flushed in between. */
    method WriteWithRetries(addr: nat, data: seq<byte>, flights: seq<Option<seq<byte>>>) returns (done: nat)
      requires Valid() && InStep() && wnum == 0 && !wpendPending
      modifies this, buffer, buffer.buf
      ensures Valid() && SameBlock() && done <= |data|
      ensures old(app) <= app && app[|old(app)|..] <= data && |old(app)| + done <= |app|
      ensures done == |data| ==> app == old(app) + data
    {
      hide Piped, Stuck, Blocked, SealRefused, Sealed, Plain;
      done := 0;
      for i := 0 to |flights|
        invariant Valid() && SameBlock() && done <= |data|
        invariant reported == |old(app)| + done && old(app) <= app
        invariant Correct(addr + done, data[done..])
        invariant Reports(old(app), app, reported, data, done)
      {
        if flights[i].Some? {
          var _ := AddMessage(flights[i].value);
          var _ := FlushFlight(false);
        }
        done := Retry(addr, data, old(app), done);
      }
      Chained(app, |old(app)|, reported, data, done);
    }

    /** One such call. */
    method Retry(addr: nat, data: seq<byte>, ghost before: seq<byte>, done: nat) returns (now: nat)
      requires Valid() && done <= |data| && Correct(addr + done, data[done..])
      requires before <= app && reported == |before| + done && Reports(before, app, reported, data, done)
      modifies this, buffer, buffer.buf
      ensures Valid() && SameBlock() && now <= |data| && Correct(addr + now, data[now..])
      ensures before <= app && reported == |before| + now && Reports(before, app, reported, data, now)
    {
      hide Piped, Stuck, Blocked, SealRefused;
      ghost var was := app;
      var ret := WriteApp(addr + done, data[done..], false);
      Reported(was, app, |before|, |before| + done, data, done);
      now := if ret > 0 then done + ret else done;
    }
  }

  /** One more record was sealed. */
  ghost predicate OneMore(before: seq<Rec>, after: seq<Rec>, typ: RecordType, plaintext: seq<byte>) {
    exists sealed :: after == before + [Rec(typ, plaintext, sealed)]
  }

  /** Every record added holds application data, and at most so much of it; only the last may hold less. */
  predicate CutUp(before: seq<Rec>, after: seq<Rec>, max: nat) {
    && before <= after
    && (forall i | |before| <= i < |after| :: after[i].typ == AppData && 0 < |after[i].plaintext| <= max)
    && (forall i | |before| <= i < |after| - 1 :: |after[i].plaintext| == max)
  }

  predicate AllFull(before: seq<Rec>, after: seq<Rec>, max: nat) {
    before <= after && forall i | |before| <= i < |after| :: after[i].typ == AppData && |after[i].plaintext| == max
  }

  /** The last record added is not a full one. */
  predicate Shortened(before: seq<Rec>, after: seq<Rec>, max: nat) {
    |after| > |before| && |after[|after| - 1].plaintext| < max
  }

  lemma NothingCut(log: seq<Rec>, max: nat)
    ensures AllFull(log, log, max)
  {
  }

  lemma CutSame(before: seq<Rec>, after: seq<Rec>, max: nat)
    requires AllFull(before, after, max) && max > 0
    ensures CutUp(before, after, max) && !Shortened(before, after, max)
  {
  }

  lemma CutOnce(before: seq<Rec>, mid: seq<Rec>, after: seq<Rec>, max: nat, plaintext: seq<byte>)
    requires AllFull(before, mid, max) && OneMore(mid, after, AppData, plaintext) && 0 < |plaintext| <= max
    ensures CutUp(before, after, max)
    ensures Shortened(before, after, max) <==> |plaintext| < max
    ensures |plaintext| == max ==> AllFull(before, after, max)
  {
  }

  /** What is reported of the data is what was sealed of it. */
  predicate Reports(before: seq<byte>, app: seq<byte>, reported: nat, data: seq<byte>, done: nat) {
    |before| <= reported <= |app| && done <= |data| && app[|before|..reported] == data[..done]
  }

  /** Since before, the data was sealed from p up to tot. */
  predicate Grown(before: seq<byte>, after: seq<byte>, data: seq<byte>, p: nat, tot: nat) {
    p <= tot <= |data| && after == before + data[p..tot]
  }

  lemma GrowMore(before: seq<byte>, mid: seq<byte>, after: seq<byte>, data: seq<byte>, p: nat, tot: nat, n: int)
    ensures n >= 0 && tot + n <= |data| && Grown(before, mid, data, p, tot) && after == mid + data[tot..tot + n] ==>
              Grown(before, after, data, p, tot + n)
    ensures p <= |data| ==> Grown(before, before, data, p, p)
  {
    if n >= 0 && tot + n <= |data| && Grown(before, mid, data, p, tot) && after == mid + data[tot..tot + n] {
      assert data[p..tot] + data[tot..tot + n] == data[p..tot + n];
      assert before + (data[p..tot] + data[tot..tot + n]) == (before + data[p..tot]) + data[tot..tot + n];
    }
  }

  /** What was reported before stays; what is reported now is the next of the data. */
  lemma Reported(before: seq<byte>, after: seq<byte>, start: nat, at: nat, data: seq<byte>, done: nat)
    requires before <= after && start <= at <= |before| && done <= |data| && before[start..at] == data[..done]
    ensures after[start..at] == data[..done]
    ensures after[at..] <= data[done..] ==> after[start..] == data[..done + |after| - at]
  {
    assert after[start..at] == before[start..at];
    assert after[start..] == after[start..at] + after[at..];
    if after[at..] <= data[done..] {
      assert data[..done] + data[done..][..|after| - at] == data[..done + |after| - at];
    }
  }

  lemma Chained(plain: seq<byte>, start: nat, mid: nat, data: seq<byte>, done: nat)
    requires start <= mid <= |plain| && done <= |data|
    requires plain[start..mid] == data[..done] && plain[mid..] <= data[done..]
    ensures plain[start..] <= data
  {
    assert plain[start..] == plain[start..mid] + plain[mid..];
    assert data == data[..done] + data[done..];
  }

  lemma Extended(plain: seq<byte>, reported: nat, data: seq<byte>, tot: nat, nw: nat)
    requires reported <= |plain| && tot + nw <= |data|
    ensures plain[reported..] == data[..tot] ==> (plain + data[tot..tot + nw])[reported..] == data[..tot + nw]
  {
    assert (plain + data[tot..tot + nw])[reported..] == plain[reported..] + data[tot..tot + nw];
    assert data[..tot] + data[tot..tot + nw] == data[..tot + nw];
  }
}
