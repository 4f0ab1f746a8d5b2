/** What a handshake driver works on: its messages in and out, its transcript and its keys. */
module HsEndpoint {
  import opened Bytes
  import opened HsStages
  import opened HsTranscript

  /** What travels: a handshake message, or a ChangeCipherSpec record. */
  datatype Item = Message(typ: MsgType, body: seq<byte>) | Ccs

  /** The messages among items, as one side's entries. */
  function Entries(items: seq<Item>, from: Side): seq<Entry> {
    if items == [] then []
    else
      var last := items[|items| - 1];
      Entries(items[..|items| - 1], from) + if last.Message? then [Entry(from, last.typ, last.body)] else []
  }

  lemma EntriesSnoc(items: seq<Item>, x: Item, from: Side)
    ensures Entries(items + [x], from) == Entries(items, from) + if x.Message? then [Entry(from, x.typ, x.body)] else []
  {
    assert (items + [x])[..|items|] == items;
  }

  lemma {:induction false} EntriesPrefix(a: seq<Item>, b: seq<Item>, from: Side)
    requires a <= b
    ensures Entries(a, from) <= Entries(b, from)
    decreases |b|
  {
    if |a| < |b| {
      EntriesPrefix(a, b[..|b| - 1], from);
    } else {
      assert a == b;
    }
  }

  function Types(es: seq<Entry>): seq<MsgType> {
    seq(|es|, i requires 0 <= i < |es| => es[i].typ)
  }

  lemma TypesSnoc(es: seq<Entry>, e: Entry)
    ensures Types(es + [e]) == Types(es) + [e.typ]
  {
  }

  predicate NoHvr(items: seq<Item>) {
    forall i | 0 <= i < |items| && items[i].Message? :: items[i].typ != HelloVerifyRequest
  }

  class Endpoint {
    const side: Side
    const mac: (seq<Entry>, Side) -> seq<byte>     // the Finished value of a side over a transcript
    const sign: (seq<Entry>, nat) -> seq<byte>      // a signature over a transcript by this end's key, from a nonce
    const accepts: (seq<Entry>, seq<byte>) -> bool  // a signature over a transcript by the key of the certificate in it
    var inbox: seq<Item>                        // arrived and not yet released
    var outbox: seq<Item>                       // everything added to flights
    var buffer: Option<seq<Entry>>              // the transcript's buffer, until it is freed
    var hash: Option<seq<Entry>>                // the transcript's running hash, once initialized
    ghost var hashed: seq<Entry>                // the transcript since it was last started
    ghost var consumed: seq<Item>               // everything released, in order
    ghost var inStart: nat                      // what was released and added when the transcript was started
    ghost var outStart: nat
    ghost var sent: seq<MsgType>                // the types sent and received in the transcript, in order
    ghost var got: seq<MsgType>
    ghost var keys: seq<KeyEvent>
    ghost var digestFailed: bool

    ghost predicate Valid()
      reads this
    {
      && TranscriptHeld()
      && Polite(hashed, side)
      && inStart <= |consumed| && outStart <= |outbox|
      && FromSide(hashed, side) == Entries(outbox[outStart..], side)
      && FromSide(hashed, Peer(side)) <= Entries((consumed + inbox)[inStart..], Peer(side))
      && AllVouched(hashed)
      && (digestFailed ==> RejectedLast())
      && sent == Types(FromSide(hashed, side)) && got == Types(FromSide(hashed, Peer(side)))
      && NoHvr(outbox)
    }

    /** A signature this end's key may have made. */
    ghost predicate Signed(t: seq<Entry>, body: seq<byte>) {
      exists nonce :: sign(t, nonce) == body
    }

    lemma SignedBy(t: seq<Entry>, nonce: nat)
      ensures Signed(t, sign(t, nonce))
    {
    }

    /** A Finished that was sent is the value over the messages before it, a CertificateVerify that was sent signs them,
        and one that was received is a signature over them. */
    ghost predicate Vouched(t: seq<Entry>, i: nat)
      requires i < |t|
    {
      var e, before := t[i], t[..i];
      && (e.from == side && e.typ == Finished ==> e.body == mac(before, side))
      && (e.from == side && e.typ == CertificateVerify ==> Signed(before, e.body))
      && (e.from != side && e.typ == CertificateVerify ==> accepts(before, e.body))
    }

    ghost predicate AllVouched(t: seq<Entry>) {
      forall i | 0 <= i < |t| :: Vouched(t, i)
    }

    lemma VouchedSnoc(t: seq<Entry>, e: Entry)
      requires AllVouched(t)
      requires e.from == side && e.typ == Finished ==> e.body == mac(t, side)
      requires e.typ == CertificateVerify ==> if e.from == side then Signed(t, e.body) else accepts(t, e.body)
      ensures AllVouched(t + [e])
    {
      forall i | 0 <= i < |t| + 1 ensures Vouched(t + [e], i) {
        if i < |t| {
          assert Vouched(t, i) && (t + [e])[..i] == t[..i];
        } else {
          assert (t + [e])[..i] == t;
        }
      }
    }

    /** The buffer and the hash each hold the whole transcript, and one of them is there. */
    ghost predicate TranscriptHeld()
      reads `buffer, `hash, `hashed
    {
      && (buffer.Some? || hash.Some?)
      && (buffer.Some? ==> buffer.value == hashed)
      && (hash.Some? ==> hash.value == hashed)
    }

    ghost predicate RejectedLast()
      reads `hashed
    {
      && hashed != []
      && var (last, before) := (hashed[|hashed| - 1], hashed[..|hashed| - 1]);
         last.from == Peer(side) && last.typ == Finished && last.body != mac(before, Peer(side))
    }

    /** Every message released since the transcript was started is hashed, exactly once and in order, and no other. */
    ghost predicate Settled()
      reads `inStart, `consumed, `hashed
    {
      && inStart <= |consumed|
      && FromSide(hashed, Peer(side)) == Entries(consumed[inStart..], Peer(side))
    }

    predicate HasMessage()
      reads `inbox
    {
      inbox != [] && inbox[0].Message?
    }

    ghost function Head(): Entry
      requires HasMessage()
      reads `inbox
    {
      Entry(Peer(side), inbox[0].typ, inbox[0].body)
    }

    /** The current message is hashed and not yet released. */
    ghost predicate Ahead()
      reads `inStart, `consumed, `inbox, `hashed
    {
      && inStart <= |consumed| && HasMessage()
      && FromSide(hashed, Peer(side)) == Entries(consumed[inStart..], Peer(side)) + [Head()]
    }

    constructor (side: Side, mac: (seq<Entry>, Side) -> seq<byte>, sign: (seq<Entry>, nat) -> seq<byte>,
                 accepts: (seq<Entry>, seq<byte>) -> bool)
      ensures Valid() && Settled() && this.side == side && this.mac == mac
      ensures this.sign == sign && this.accepts == accepts
      ensures hashed == [] && keys == [] && inbox == [] && outbox == [] && consumed == [] && buffer.Some? && hash.None?
      ensures inStart == outStart == 0 && !digestFailed && sent == got == []
    {
      this.side, this.mac, this.sign, this.accepts := side, mac, sign, accepts;
      inbox, outbox, buffer, hash := [], [], Some([]), None;
      hashed, consumed, inStart, outStart, sent, got, keys, digestFailed := [], [], 0, 0, [], [], [], false;
    }

    // ----- The transcript -----

    /** SSLTranscript::InitHash: the hash starts from what was buffered. */
    method InitHash()
      requires Valid() && buffer.Some?
      modifies this`hash
      ensures Valid() && hash.Some?
      ensures Settled() <==> old(Settled())
    {
      hash := buffer;
    }

    /** SSLTranscript::FreeBuffer, which only a running hash makes safe. */
    method FreeBuffer()
      requires Valid() && hash.Some?
      modifies this`buffer
      ensures Valid() && buffer.None?
    {
      buffer := None;
    }

    /** What a CertificateVerify signs. */
    method UseBuffer() returns (t: seq<Entry>)
      requires Valid() && buffer.Some?
      ensures t == hashed
    {
      t := buffer.value;
    }

    /** SSLTranscript::Update. */
    method Update(e: Entry)
      requires TranscriptHeld()
      modifies this`buffer, this`hash, this`hashed
      ensures TranscriptHeld() && hashed == old(hashed) + [e]
      ensures buffer.Some? == old(buffer.Some?) && hash.Some? == old(hash.Some?)
    {
      if buffer.Some? {
        buffer := Some(buffer.value + [e]);
      }
      if hash.Some? {
        hash := Some(hash.value + [e]);
      }
      hashed := hashed + [e];
    }

    // ----- Messages in -----

    /** The next item arrives. */
    method Arrive(x: Item)
      requires Valid()
      modifies this`inbox
      ensures Valid() && inbox == old(inbox) + [x]
    {
      hide FromSide, Polite, Types, Entries, AllVouched;
      assert (consumed + (inbox + [x]))[inStart..] == (consumed + inbox)[inStart..] + [x];
      EntriesSnoc((consumed + inbox)[inStart..], x, Peer(side));
      inbox := inbox + [x];
    }

    /** ssl_hash_message on the current message. */
    method Hash()
      requires Valid() && Settled() && HasMessage() && !digestFailed
      requires inbox[0].typ == CertificateVerify ==> accepts(hashed, inbox[0].body)
      modifies this`buffer, this`hash, this`hashed, this`got
      ensures Valid() && Ahead() && hashed == old(hashed) + [Head()] && got == old(got) + [Head().typ]
      ensures Speaker(hashed) == if EndsTurn(inbox[0].typ) then side else Peer(side)
      ensures buffer.Some? == old(buffer.Some?) && hash.Some? == old(hash.Some?)
    {
      hide FromSide, Entries, Polite, AllVouched, RejectedLast, Types;
      var e := Entry(Peer(side), inbox[0].typ, inbox[0].body);
      FromSideSnoc(hashed, e, side);
      FromSideSnoc(hashed, e, Peer(side));
      PoliteSnoc(hashed, e, side);
      EntriesSnoc(consumed[inStart..], inbox[0], Peer(side));
      EntriesPrefix(consumed[inStart..] + [inbox[0]], (consumed + inbox)[inStart..], Peer(side));
      got := got + [e.typ];
      TypesSnoc(FromSide(hashed, e.from), e);
      VouchedSnoc(hashed, e);
      SpeakerSnoc(hashed, e);
      Update(e);
    }

    /** next_message. */
    method Next()
      requires Valid() && HasMessage()
      modifies this`inbox, this`consumed
      ensures Valid() && inbox == old(inbox)[1..] && consumed == old(consumed) + [old(inbox)[0]]
      ensures consumed + inbox == old(consumed + inbox)
      ensures old(Ahead()) ==> Settled()
    {
      hide FromSide, Entries, Polite, AllVouched, RejectedLast, TranscriptHeld, Types;
      EntriesSnoc(consumed[inStart..], inbox[0], Peer(side));
      assert (consumed + [inbox[0]])[inStart..] == consumed[inStart..] + [inbox[0]];
      assert consumed + [inbox[0]] + inbox[1..] == consumed + inbox;
      consumed, inbox := consumed + [inbox[0]], inbox[1..];
    }

    /** A message is hashed, then parsed, then released; there is no pause in between. */
    method Take(parsed: bool)
      requires Valid() && Settled() && HasMessage() && !digestFailed
      requires inbox[0].typ == CertificateVerify ==> accepts(hashed, inbox[0].body)
      modifies this`buffer, this`hash, this`hashed, this`got, this`inbox, this`consumed
      ensures Valid() && hashed == old(hashed) + [old(Head())] && consumed + inbox == old(consumed + inbox)
      ensures Speaker(hashed) == if EndsTurn(old(inbox[0].typ)) then side else Peer(side)
      ensures parsed ==> Settled() && got == old(got) + [old(Head()).typ] && inbox == old(inbox)[1..]
      ensures !parsed ==> inbox == old(inbox)
      ensures buffer.Some? == old(buffer.Some?) && hash.Some? == old(hash.Some?)
    {
      hide FromSide, Entries, Polite, AllVouched, RejectedLast, TranscriptHeld, Types, Valid, Settled, Ahead;
      Hash();
      if parsed {
        Next();
      }
    }

    /** SSLTranscript::Init after a HelloVerifyRequest: the transcript starts again. */
    method Restart()
      requires Valid() && !digestFailed
      modifies this`buffer, this`hash, this`hashed, this`inStart, this`outStart, this`sent, this`got
      ensures Valid() && Settled() && hashed == [] && sent == got == [] && buffer.Some? && hash.None?
      ensures Speaker(hashed) == Client
    {
      buffer, hash, hashed := Some([]), None, [];
      inStart, outStart, sent, got := |consumed|, |outbox|, [], [];
      assert consumed[inStart..] == [] && outbox[outStart..] == [];
    }

    /** A ChangeCipherSpec record is consumed (ssl_open_change_cipher_spec). */
    method OpenCcs()
      requires Valid() && Settled() && inbox != [] && inbox[0].Ccs?
      modifies this`inbox, this`consumed, this`keys
      ensures Valid() && Settled() && consumed == old(consumed) + [Ccs] && inbox == old(inbox)[1..]
      ensures consumed + inbox == old(consumed + inbox) && keys == old(keys) + [GotCcs]
    {
      hide FromSide, Entries, Polite, AllVouched, RejectedLast, TranscriptHeld, Types;
      EntriesSnoc(consumed[inStart..], inbox[0], Peer(side));
      assert (consumed + [inbox[0]])[inStart..] == consumed[inStart..] + [inbox[0]];
      assert consumed + [inbox[0]] + inbox[1..] == consumed + inbox;
      consumed, inbox := consumed + [inbox[0]], inbox[1..];
      keys := keys + [GotCcs];
    }

    // ----- Messages out -----

    /** finish_message and add_message: the message joins the flight and the transcript. */
    method Add(typ: MsgType, body: seq<byte>)
      requires Valid() && Speaker(hashed) == side && !digestFailed
      requires typ != HelloVerifyRequest
      requires (typ == Finished ==> body == mac(hashed, side)) && (typ == CertificateVerify ==> Signed(hashed, body))
      modifies this`outbox, this`buffer, this`hash, this`hashed, this`sent
      ensures Valid() && outbox == old(outbox) + [Message(typ, body)]
      ensures hashed == old(hashed) + [Entry(side, typ, body)] && sent == old(sent) + [typ]
      ensures Speaker(hashed) == if EndsTurn(typ) then Peer(side) else side
      ensures buffer.Some? == old(buffer.Some?) && hash.Some? == old(hash.Some?)
      ensures old(Settled()) ==> Settled()
    {
      hide FromSide, Entries, Polite, AllVouched, RejectedLast, Types;
      var e := Entry(side, typ, body);
      FromSideSnoc(hashed, e, side);
      FromSideSnoc(hashed, e, Peer(side));
      PoliteSnoc(hashed, e, side);
      EntriesSnoc(outbox[outStart..], Message(typ, body), side);
      assert (outbox + [Message(typ, body)])[outStart..] == outbox[outStart..] + [Message(typ, body)];
      TypesSnoc(FromSide(hashed, side), e);
      sent := sent + [typ];
      VouchedSnoc(hashed, e);
      SpeakerSnoc(hashed, e);
      Update(e);
      outbox := outbox + [Message(typ, body)];
    }

    /** add_change_cipher_spec and tls1_change_cipher_state for writing. */
    method AddCcs(derived: bool)
      requires Valid()
      modifies this`outbox, this`keys
      ensures Valid() && outbox == old(outbox) + [Ccs]
      ensures Settled() <==> old(Settled())
      ensures keys == old(keys) + if derived then [SentCcs, WriteKeys] else [SentCcs]
    {
      hide FromSide, Entries, Polite, AllVouched, TranscriptHeld, RejectedLast, Types;
      EntriesSnoc(outbox[outStart..], Ccs, side);
      assert (outbox + [Ccs])[outStart..] == outbox[outStart..] + [Ccs];
      outbox := outbox + [Ccs];
      keys := keys + [SentCcs];
      if derived {
        keys := keys + [WriteKeys];
      }
    }

    /** ssl_send_finished. */
    method SendFinished()
      requires Valid() && Settled() && Speaker(hashed) == side && !digestFailed && hash.Some?
      modifies this`outbox, this`buffer, this`hash, this`hashed, this`keys, this`sent
      ensures Valid() && Settled() && old(outbox) <= outbox && sent == old(sent) + [Finished]
      ensures hashed == old(hashed) + [Entry(side, Finished, mac(old(hashed), side))] && Speaker(hashed) == Peer(side)
      ensures buffer.Some? == old(buffer.Some?) && hash.Some? == old(hash.Some?)
      ensures keys == old(keys) + [SentFinished]
    {
      hide FromSide, Entries, Polite, AllVouched, RejectedLast, Types;
      var body := mac(hash.value, side);
      Add(Finished, body);
      keys := keys + [SentFinished];
    }

    /** tls1_change_cipher_state for reading. */
    method ReadKeys()
      requires Valid() && Settled()
      modifies this`keys
      ensures Valid() && Settled() && keys == old(keys) + [KeyEvent.ReadKeys]
    {
      keys := keys + [KeyEvent.ReadKeys];
    }

    /** ssl_get_finished: the value is computed before the message is hashed, and compared after. */
    method GetFinished() returns (wait: Wait)
      requires Valid() && Settled() && !digestFailed && hash.Some?
      modifies this`inbox, this`consumed, this`buffer, this`hash, this`hashed, this`keys, this`digestFailed, this`got
      ensures Valid() && wait in {Ok, Error, AwaitMessage}
      ensures wait == AwaitMessage <==> !old(HasMessage())
      ensures wait == AwaitMessage ==>
                && inbox == old(inbox) && hashed == old(hashed) && keys == old(keys) && Settled()
                && consumed == old(consumed) && !digestFailed && got == old(got)
      ensures old(hashed) <= hashed && consumed + inbox == old(consumed + inbox)
      ensures buffer.Some? == old(buffer.Some?) && hash.Some? == old(hash.Some?)
      ensures wait == Ok ==>
                && Settled() && !digestFailed && keys == old(keys) + [GotFinished] && got == old(got) + [Finished]
                && hashed == old(hashed) + [Entry(Peer(side), Finished, mac(old(hashed), Peer(side)))]
                && consumed == old(consumed) + [old(inbox)[0]] && Speaker(hashed) == side
      ensures digestFailed ==> wait == Error
      ensures wait == Error && !digestFailed ==> inbox == old(inbox) && HasMessage() && inbox[0].typ != Finished
    {
      hide FromSide, Entries, Polite, AllVouched, Types, Settled, Ahead;
      if !HasMessage() {
        return AwaitMessage;
      }
      if inbox[0].typ != Finished {
        return Error;
      }
      var finished := mac(hash.value, Peer(side));
      Hash();
      if inbox[0].body != finished {
        digestFailed := true;
        return Error;
      }
      keys := keys + [GotFinished];
      Next();
      return Ok;
    }

    // ----- The driver -----

    predicate HasCcs()
      reads `inbox
    {
      inbox != [] && inbox[0].Ccs?
    }

    /** What a driver waits for is there; `flushed` is what the transport says of the flight. */
    predicate Arrived(w: Wait, flushed: bool)
      reads `inbox
    {
      match w
      case Ok => true
      case Flush => flushed
      case AwaitMessage | AwaitServerHello => HasMessage()
      case AwaitCcs => HasCcs()
      case Error | X509Lookup | ChannelIdLookup | PrivateKeyOperation | PendingSession | CertificateSelection
         | CertificateVerifying | EarlyReturn => false
    }

    /** What the driver was waiting on, in ssl_run_handshake: it goes on exactly if that is there, and otherwise the
        caller has to come back. */
    method Resolve(w: Wait, flushed: bool) returns (blocked: bool, early: bool, next: Wait)
      requires Valid() && Settled() && w != Error
      modifies this`inbox, this`consumed, this`keys
      ensures Valid() && Settled() && consumed + inbox == old(consumed + inbox)
      ensures blocked <==> !old(Arrived(w, flushed))
      ensures early <==> w == EarlyReturn
      ensures next == if Weight(w) > 0 then w else Ok
      ensures keys == if !blocked && w == AwaitCcs then old(keys) + [GotCcs] else old(keys)
      ensures inbox == if !blocked && w == AwaitCcs then old(inbox)[1..] else old(inbox)
    {
      hide FromSide, Entries, Polite, AllVouched, RejectedLast, TranscriptHeld, Types, Valid, Settled;
      if w == Flush {
        return !flushed, false, w;  // the transport did not take all of it
      }
      if w in {AwaitMessage, AwaitServerHello, AwaitCcs} {
        if inbox == [] || inbox[0].Ccs? != (w == AwaitCcs) {
          return true, false, w;  // nothing there, or an unexpected record
        }
        if w == AwaitCcs {
          OpenCcs();
        }
        return false, false, w;
      }
      return w != Ok, w == EarlyReturn, Ok;
    }
  }

  /** Stops that the driver resolves itself, and stops that go back to the caller. */
  function Weight(w: Wait): nat {
    if w in {Ok, Flush} then 2 else if w in {AwaitMessage, AwaitServerHello, AwaitCcs} then 1 else 0
  }
}
