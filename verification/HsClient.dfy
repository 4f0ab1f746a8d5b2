/** The client's handshake driver for TLS 1.2 and below. */
module HsClient {
  import opened Bytes
  import opened HsStages
  import opened HsTranscript
  import opened HsEndpoint
  import opened HsHandshake
  import opened HsClientStages
  import H = HsHandshake

  /** What a client finds when it enters a state. */
  lemma Enter(hs: Handshake, at: CS.State)
    requires hs.Ready() && hs.state == C(at)
    ensures hs.ep.Valid() && hs.ep.Settled() && !hs.ep.digestFailed && hs.ep.side == Client
    ensures !CS.Finishing(at) ==> (CS.Speaks(at) <==> Speaker(hs.ep.hashed) == Client)
    ensures hs.ep.buffer.Some? <==> CS.Buffered(at, hs.p)
    ensures hs.ep.hash.Some? <==> !CS.BeforeHello(at)
    ensures CS.Checked(at, hs.p) && hs.Orderly(hs.p)
    ensures hs.ep.sent == CS.Sent(at, hs.p) && hs.ep.got == CS.Received(at, hs.p) && hs.ep.keys == CS.Keys(at, hs.p)
  {
    hide Endpoint.Valid, Endpoint.Settled, CS.Checked, CS.Sent, CS.Received, CS.Keys, CS.Buffered, CS.BeforeHello,
         CS.Speaks, CS.Finishing, InOrder, AllBelow, H.Rank;
  }

  /** A message that cannot come next. */
  lemma Unexpected(hs: Handshake, at: CS.State)
    requires hs.state == C(at) && hs.ep.HasMessage()
    requires !CS.Expects(at, hs.p, hs.ep.inbox[0].typ, hs.ep.inbox[0].body)
    ensures hs.Misfit()
  {
    hide CS.Expects;
  }

  lemma NotFinished(hs: Handshake)
    requires hs.state == C(ReadServerFinished)
    requires hs.ep.digestFailed || (hs.ep.HasMessage() && hs.ep.inbox[0].typ != Finished)
    ensures hs.Misfit()
  {
  }

  /** What a client leaves behind when it completes a state. */
  method Complete(hs: Handshake, ghost was: Params, ghost since: nat, at: CS.State, next: CS.State, w: Wait)
    requires hs.state == C(at) && at != Done && hs.Orderly(was) && hs.asked >= since
    requires CS.Decides(at, was, hs.p) && next == CS.Successor(at, hs.p)
    requires hs.ep.Valid() && hs.ep.Settled() && !hs.ep.digestFailed && hs.ep.side == Client
    requires !CS.Finishing(next) ==> (CS.Speaks(next) <==> Speaker(hs.ep.hashed) == Client)
    requires hs.ep.buffer.Some? <==> CS.Buffered(next, hs.p)
    requires hs.ep.hash.Some? <==> !CS.BeforeHello(next)
    requires hs.ep.sent == CS.Added(at, hs.p, CS.Sent(at, was))
    requires hs.ep.got == CS.Taken(at, hs.p, CS.Received(at, was))
    requires hs.ep.keys == CS.Keyed(at, CS.Keys(at, was))
    requires CS.Leaves(at, w)
    modifies hs`state, hs`completed
    ensures hs.Paused(w) && hs.state == C(next) && hs.completed == old(hs.completed) + [C(at)]
    ensures hs.Moved(C(at), was, w, true) && hs.Moved(C(at), was, w, false) && hs.Justified(w, since)
  {
    hide Endpoint.Valid, Endpoint.Settled, FromSide, Entries, Polite, Speaker, CS.Checked, CS.Decides, CS.Sent,
         CS.Received, CS.Keys, CS.Added, CS.Taken, CS.Keyed, CS.Buffered, CS.BeforeHello, CS.Speaks, CS.Finishing,
         CS.Successor, InOrder, AllBelow, H.Rank, Handshake.Orderly, Handshake.Paused, Handshake.Moved,
         Handshake.Justified;
    hs.Advance(was, since, C(next), w);
  }

  /** Until the ServerHello a client has sent its ClientHello and received nothing. */
  lemma HelloSent(p: Params)
    ensures CS.Sent(ReadHelloVerifyRequest, p) == [ClientHello] && CS.Received(ReadHelloVerifyRequest, p) == []
  {
  }

  method DoStartConnect(hs: Handshake) returns (w: Wait)
    requires hs.Ready() && hs.state == C(StartConnect)
    modifies hs, hs.ep
    ensures hs.Stepped(w)
  {
    hide FromSide, Entries, Polite, Speaker, NoHvr, Endpoint.Valid, Endpoint.Settled, Endpoint.Ahead, Handshake.Ready,
         Handshake.Paused, Handshake.Orderly, Handshake.Moved, CS.Sent, CS.Received, CS.Keys, CS.Checked,
         Handshake.Misfit, Handshake.Justified, Weight;
    ghost var was, since := hs.p, hs.asked;
    Enter(hs, StartConnect);
    var body: seq<byte> := *;  // the ClientHello
    var ok := hs.Ask();
    if !ok {
      hs.Fails(was, since);
      return Error;
    }
    hs.ep.Add(ClientHello, body);
    Complete(hs, was, since, StartConnect, EnterEarlyData, Flush);
    return Flush;
  }

  method DoEnterEarlyData(hs: Handshake) returns (w: Wait)
    requires hs.Ready() && hs.state == C(EnterEarlyData)
    modifies hs, hs.ep
    ensures hs.Stepped(w)
  {
    hide FromSide, Entries, Polite, Speaker, NoHvr, Endpoint.Valid, Endpoint.Settled, Endpoint.Ahead, Handshake.Ready,
         Handshake.Paused, Handshake.Orderly, Handshake.Moved, CS.Sent, CS.Received, CS.Keys, CS.Checked,
         Handshake.Misfit, Handshake.Justified, Weight;
    ghost var was, since := hs.p, hs.asked;
    Enter(hs, EnterEarlyData);
    if hs.p.hello.dtls {
      Complete(hs, was, since, EnterEarlyData, ReadHelloVerifyRequest, Ok);
      return Ok;
    }
    Complete(hs, was, since, EnterEarlyData, ReadServerHello, Ok);
    return Ok;
  }

  method AnswerHvr(hs: Handshake, body: seq<byte>)
    requires hs.ep.Valid() && hs.ep.side == Client && !hs.ep.digestFailed
    requires hs.ep.HasMessage() && hs.ep.inbox[0].typ == HelloVerifyRequest
    modifies hs.ep
    ensures hs.ep.Valid() && hs.ep.Settled() && !hs.ep.digestFailed && hs.Evolves()
    ensures hs.ep.sent == [ClientHello] && hs.ep.got == [] && hs.ep.keys == old(hs.ep.keys)
    ensures hs.ep.buffer.Some? && hs.ep.hash.None?
    ensures |hs.ep.hashed| == 1 && hs.ep.hashed[0].typ == ClientHello && Speaker(hs.ep.hashed) == Server
  {
    hide FromSide, Entries, Polite, Speaker, NoHvr, Endpoint.Valid, Endpoint.Settled, Endpoint.Ahead;
    HvrSeen(hs.ep.consumed, hs.ep.inbox);
    hs.ep.Next();
    hs.ep.Restart();
    hs.ep.Add(ClientHello, body);
  }

  /** The transcript starts again with a second ClientHello. */
  method RestartHello(hs: Handshake) returns (w: Wait)
    requires hs.Ready() && hs.state == C(ReadHelloVerifyRequest)
    requires hs.ep.HasMessage() && hs.ep.inbox[0].typ == HelloVerifyRequest
    modifies hs, hs.ep
    ensures hs.Stepped(w)
    ensures w == Flush ==> |hs.ep.hashed| == 1 && hs.ep.hashed[0].typ == ClientHello
  {
    hide FromSide, Entries, Polite, Speaker, NoHvr, Endpoint.Valid, Endpoint.Settled, Endpoint.Ahead, Handshake.Ready,
         Handshake.Paused, Handshake.Orderly, Handshake.Moved, CS.Sent, CS.Received, CS.Keys, CS.Checked,
         Handshake.Misfit, Handshake.Justified, Weight;
    ghost var was, since := hs.p, hs.asked;
    Enter(hs, ReadHelloVerifyRequest);
    var body: seq<byte> := *;
    var parsed := hs.Ask();
    if !parsed {
      hs.Fails(was, since);
      return Error;
    }
    AnswerHvr(hs, body);
    HelloSent(was);
    Complete(hs, was, since, ReadHelloVerifyRequest, ReadServerHello, Flush);
    return Flush;
  }

  method DoReadHelloVerifyRequest(hs: Handshake) returns (w: Wait)
    requires hs.Ready() && hs.state == C(ReadHelloVerifyRequest)
    modifies hs, hs.ep
    ensures hs.Stepped(w)
    ensures w == Flush ==> |hs.ep.hashed| == 1 && hs.ep.hashed[0].typ == ClientHello
  {
    hide FromSide, Entries, Polite, Speaker, NoHvr, Endpoint.Valid, Endpoint.Settled, Endpoint.Ahead, Handshake.Ready,
         Handshake.Paused, Handshake.Orderly, Handshake.Moved, CS.Sent, CS.Received, CS.Keys, CS.Checked,
         Handshake.Misfit, Handshake.Justified, Weight;
    ghost var was, since := hs.p, hs.asked;
    Enter(hs, ReadHelloVerifyRequest);
    if !hs.ep.HasMessage() {
      hs.Waits(AwaitMessage, since);
      return AwaitMessage;
    }
    if hs.ep.inbox[0].typ != HelloVerifyRequest {
      Complete(hs, was, since, ReadHelloVerifyRequest, ReadServerHello, Ok);
      return Ok;
    }
    w := RestartHello(hs);
  }

  lemma HvrSeen(consumed: seq<Item>, inbox: seq<Item>)
    requires inbox != [] && inbox[0].Message? && inbox[0].typ == HelloVerifyRequest
    ensures !NoHvr(consumed + inbox)
  {
    assert (consumed + inbox)[|consumed|] == inbox[0];
  }

  /** The hash is started with the cipher known, and the buffer kept only where a certificate may be asked for. */
  method HashServerHello(hs: Handshake)
    requires hs.ep.Valid() && hs.ep.Settled() && hs.ep.HasMessage() && hs.ep.inbox[0].typ == ServerHello
    requires hs.ep.side == Client && !hs.ep.digestFailed && hs.ep.buffer.Some?
    modifies hs.ep`buffer, hs.ep`hash, hs.ep`hashed, hs.ep`got
    ensures hs.ep.Valid() && hs.ep.Ahead() && hs.ep.hashed == old(hs.ep.hashed) + [hs.ep.Head()]
    ensures hs.ep.got == old(hs.ep.got) + [ServerHello] && Speaker(hs.ep.hashed) == Server
    ensures hs.ep.hash.Some? && (hs.ep.buffer.Some? <==> !hs.p.hello.resumed && hs.p.hello.usesCert)
  {
    hide FromSide, Entries, Polite, Speaker, Endpoint.Valid, Endpoint.Settled, Endpoint.Ahead, NoHvr;
    hs.ep.InitHash();
    hs.ep.Hash();
    if hs.p.hello.resumed || !hs.p.hello.usesCert {
      hs.ep.FreeBuffer();
    }
  }

  /** The cipher and the extensions are decided, and the message is hashed in between. */
  method TakeServerHello(hs: Handshake) returns (ok: bool)
    requires hs.ep.Valid() && hs.ep.Settled() && hs.ep.HasMessage() && hs.ep.inbox[0].typ == ServerHello
    requires hs.ep.side == Client && !hs.ep.digestFailed && hs.ep.buffer.Some?
    modifies hs`p, hs`asked, hs.ep`buffer, hs.ep`hash, hs.ep`hashed, hs.ep`got, hs.ep`inbox, hs.ep`consumed
    ensures hs.ep.Valid() && hs.Evolves() && CS.Decides(ReadServerHello, old(hs.p), hs.p)
    ensures hs.asked > old(hs.asked) && (ok <==> !hs.Refused(old(hs.asked))) && Speaker(hs.ep.hashed) == Server
    ensures ok ==> hs.ep.Settled() && hs.ep.got == old(hs.ep.got) + [ServerHello]
    ensures hs.ep.hash.Some? && (hs.ep.buffer.Some? <==> !hs.p.hello.resumed && hs.p.hello.usesCert)
  {
    hide FromSide, Entries, Polite, Speaker, Endpoint.Valid, Endpoint.Settled, Endpoint.Ahead, NoHvr;
    var resumed, usesCert, requiresSke := *, *, *;
    hs.p := hs.p.(hello := hs.p.hello.(resumed := resumed, usesCert := usesCert, requiresSke := requiresSke));
    HashServerHello(hs);
    ok := hs.Ask();
    if !ok {
      return;  // the extensions did not parse
    }
    var ticketExpected, statusExpected, nextProto, channelId := *, *, *, *;
    hs.p := hs.p.(exts := Extensions(statusExpected, ticketExpected, nextProto, channelId));
    hs.ep.Next();
  }

  /** The ServerHello decides what the rest of the handshake looks like. */
  method DoReadServerHello(hs: Handshake) returns (w: Wait)
    requires hs.Ready() && hs.state == C(ReadServerHello)
    modifies hs, hs.ep
    ensures hs.Stepped(w)
  {
    hide FromSide, Entries, Polite, Speaker, NoHvr, Endpoint.Valid, Endpoint.Settled, Endpoint.Ahead, Handshake.Ready,
         Handshake.Paused, Handshake.Orderly, Handshake.Moved, CS.Sent, CS.Received, CS.Keys, CS.Checked,
         Handshake.Misfit, Handshake.Justified, Weight;
    ghost var was, since := hs.p, hs.asked;
    Enter(hs, ReadServerHello);
    if !hs.ep.HasMessage() {
      hs.Waits(AwaitServerHello, since);
      return AwaitServerHello;
    }
    if hs.ep.inbox[0].typ != ServerHello {
      Unexpected(hs, ReadServerHello);
      hs.Fails(was, since);
      return Error;
    }
    var parsed := hs.Ask();
    if !parsed {
      hs.Fails(was, since);
      return Error;
    }
    var ok := TakeServerHello(hs);
    if !ok {
      hs.Fails(was, since);
      return Error;
    }
    Complete(hs, was, since, ReadServerHello,
             if hs.p.hello.resumed then ReadSessionTicket else ReadServerCertificate, Ok);
    return Ok;
  }

  method DoReadServerCertificate(hs: Handshake) returns (w: Wait)
    requires hs.Ready() && hs.state == C(ReadServerCertificate)
    modifies hs, hs.ep
    ensures hs.Stepped(w)
  {
    hide FromSide, Entries, Polite, Speaker, NoHvr, Endpoint.Valid, Endpoint.Settled, Endpoint.Ahead, Handshake.Ready,
         Handshake.Paused, Handshake.Orderly, Handshake.Moved, CS.Sent, CS.Received, CS.Keys, CS.Checked,
         Handshake.Misfit, Handshake.Justified, Weight;
    ghost var was, since := hs.p, hs.asked;
    Enter(hs, ReadServerCertificate);
    if !hs.p.hello.usesCert {
      Complete(hs, was, since, ReadServerCertificate, ReadCertificateStatus, Ok);
      return Ok;
    }
    if !hs.ep.HasMessage() {
      hs.Waits(AwaitMessage, since);
      return AwaitMessage;
    }
    if hs.ep.inbox[0].typ != Certificate {
      Unexpected(hs, ReadServerCertificate);
      hs.Fails(was, since);
      return Error;
    }
    var parsed := hs.Ask();
    hs.ep.Take(parsed);
    if !parsed {
      hs.Fails(was, since);
      return Error;
    }
    Complete(hs, was, since, ReadServerCertificate, ReadCertificateStatus, Ok);
    return Ok;
  }

  method TakeStatus(hs: Handshake) returns (w: Wait)
    requires hs.Ready() && hs.state == C(ReadCertificateStatus)
    requires hs.ep.HasMessage() && hs.ep.inbox[0].typ == CertificateStatus
    modifies hs, hs.ep
    ensures hs.Stepped(w)
  {
    hide FromSide, Entries, Polite, Speaker, NoHvr, Endpoint.Valid, Endpoint.Settled, Endpoint.Ahead, Handshake.Ready,
         Handshake.Paused, Handshake.Orderly, Handshake.Moved, CS.Sent, CS.Received, CS.Keys, CS.Checked,
         Handshake.Misfit, Handshake.Justified, Weight;
    ghost var was, since := hs.p, hs.asked;
    Enter(hs, ReadCertificateStatus);
    var parsed := hs.Ask();
    hs.ep.Take(parsed);
    if !parsed {
      hs.Fails(was, since);
      return Error;
    }
    hs.p := hs.p.(seen := hs.p.seen.(gotStatus := true));
    Complete(hs, was, since, ReadCertificateStatus, VerifyServerCertificate, Ok);
    return Ok;
  }

  /** A server that announced a CertificateStatus may still leave it out. */
  method DoReadCertificateStatus(hs: Handshake) returns (w: Wait)
    requires hs.Ready() && hs.state == C(ReadCertificateStatus)
    modifies hs, hs.ep
    ensures hs.Stepped(w)
  {
    hide FromSide, Entries, Polite, Speaker, NoHvr, Endpoint.Valid, Endpoint.Settled, Endpoint.Ahead, Handshake.Ready,
         Handshake.Paused, Handshake.Orderly, Handshake.Moved, CS.Sent, CS.Received, CS.Keys, CS.Checked,
         Handshake.Misfit, Handshake.Justified, Weight;
    ghost var was, since := hs.p, hs.asked;
    Enter(hs, ReadCertificateStatus);
    if hs.p.exts.statusExpected && !hs.ep.HasMessage() {
      hs.Waits(AwaitMessage, since);
      return AwaitMessage;
    }
    if !hs.p.exts.statusExpected || hs.ep.inbox[0].typ != CertificateStatus {
      hs.p := hs.p.(seen := hs.p.seen.(gotStatus := false));
      Complete(hs, was, since, ReadCertificateStatus, VerifyServerCertificate, Ok);
      return Ok;
    }
    w := TakeStatus(hs);
  }

  method DoVerifyServerCertificate(hs: Handshake) returns (w: Wait)
    requires hs.Ready() && hs.state == C(VerifyServerCertificate)
    modifies hs, hs.ep
    ensures hs.Stepped(w)
  {
    hide FromSide, Entries, Polite, Speaker, NoHvr, Endpoint.Valid, Endpoint.Settled, Endpoint.Ahead, Handshake.Ready,
         Handshake.Paused, Handshake.Orderly, Handshake.Moved, CS.Sent, CS.Received, CS.Keys, CS.Checked,
         Handshake.Misfit, Handshake.Justified, Weight;
    ghost var was, since := hs.p, hs.asked;
    Enter(hs, VerifyServerCertificate);
    if !hs.p.hello.usesCert {
      Complete(hs, was, since, VerifyServerCertificate, ReadServerKeyExchange, Ok);
      return Ok;
    }
    var valid := hs.Ask();
    if !valid {
      hs.Fails(was, since);
      return Error;
    }
    var ready := hs.Ask();
    if !ready {
      hs.Waits(CertificateVerifying, since);
      return CertificateVerifying;
    }
    hs.p := hs.p.(seen := hs.p.seen.(serverVerified := true));
    Complete(hs, was, since, VerifyServerCertificate, ReadServerKeyExchange, Ok);
    return Ok;
  }

  method TakeExchange(hs: Handshake) returns (w: Wait)
    requires hs.Ready() && hs.state == C(ReadServerKeyExchange)
    requires hs.ep.HasMessage() && hs.ep.inbox[0].typ == ServerKeyExchange
    modifies hs, hs.ep
    ensures hs.Stepped(w)
  {
    hide FromSide, Entries, Polite, Speaker, NoHvr, Endpoint.Valid, Endpoint.Settled, Endpoint.Ahead, Handshake.Ready,
         Handshake.Paused, Handshake.Orderly, Handshake.Moved, CS.Sent, CS.Received, CS.Keys, CS.Checked,
         Handshake.Misfit, Handshake.Justified, Weight;
    ghost var was, since := hs.p, hs.asked;
    Enter(hs, ReadServerKeyExchange);
    var accepted := hs.Ask();  // it parses and its signature verifies
    hs.ep.Take(accepted);
    if !accepted {
      hs.Fails(was, since);
      return Error;
    }
    hs.p := hs.p.(seen := hs.p.seen.(gotSke := true));
    Complete(hs, was, since, ReadServerKeyExchange, ReadCertificateRequest, Ok);
    return Ok;
  }

  method DoReadServerKeyExchange(hs: Handshake) returns (w: Wait)
    requires hs.Ready() && hs.state == C(ReadServerKeyExchange)
    modifies hs, hs.ep
    ensures hs.Stepped(w)
  {
    hide FromSide, Entries, Polite, Speaker, NoHvr, Endpoint.Valid, Endpoint.Settled, Endpoint.Ahead, Handshake.Ready,
         Handshake.Paused, Handshake.Orderly, Handshake.Moved, CS.Sent, CS.Received, CS.Keys, CS.Checked,
         Handshake.Misfit, Handshake.Justified, Weight;
    ghost var was, since := hs.p, hs.asked;
    Enter(hs, ReadServerKeyExchange);
    if !hs.ep.HasMessage() {
      hs.Waits(AwaitMessage, since);
      return AwaitMessage;
    }
    if hs.ep.inbox[0].typ == ServerKeyExchange {
      w := TakeExchange(hs);
      return;
    }
    if hs.p.hello.requiresSke {
      Unexpected(hs, ReadServerKeyExchange);
      hs.Fails(was, since);
      return Error;
    }
    hs.p := hs.p.(seen := hs.p.seen.(gotSke := false));
    Complete(hs, was, since, ReadServerKeyExchange, ReadCertificateRequest, Ok);
    return Ok;
  }

  method TakeRequest(hs: Handshake) returns (w: Wait)
    requires hs.Ready() && hs.state == C(ReadCertificateRequest)
    requires hs.ep.HasMessage() && hs.p.hello.usesCert && hs.ep.inbox[0].typ == CertificateRequest
    modifies hs, hs.ep
    ensures hs.Stepped(w)
  {
    hide FromSide, Entries, Polite, Speaker, NoHvr, Endpoint.Valid, Endpoint.Settled, Endpoint.Ahead, Handshake.Ready,
         Handshake.Paused, Handshake.Orderly, Handshake.Moved, CS.Sent, CS.Received, CS.Keys, CS.Checked,
         Handshake.Misfit, Handshake.Justified, Weight;
    ghost var was, since := hs.p, hs.asked;
    Enter(hs, ReadCertificateRequest);
    var parsed := hs.Ask();
    hs.ep.Take(parsed);
    if !parsed {
      hs.Fails(was, since);
      return Error;
    }
    hs.p := hs.p.(auth := hs.p.auth.(certRequest := true));
    Complete(hs, was, since, ReadCertificateRequest, ReadServerHelloDone, Ok);
    return Ok;
  }

  /** A ServerHelloDone in its place means that no certificate is requested. */
  method NoRequest(hs: Handshake) returns (w: Wait)
    requires hs.Ready() && hs.state == C(ReadCertificateRequest)
    requires !hs.p.hello.usesCert || (hs.ep.HasMessage() && hs.ep.inbox[0].typ == ServerHelloDone)
    modifies hs, hs.ep
    ensures hs.Stepped(w)
  {
    hide FromSide, Entries, Polite, Speaker, NoHvr, Endpoint.Valid, Endpoint.Settled, Endpoint.Ahead, Handshake.Ready,
         Handshake.Paused, Handshake.Orderly, Handshake.Moved, CS.Sent, CS.Received, CS.Keys, Handshake.Misfit,
         Handshake.Justified, Weight;
    ghost var was, since := hs.p, hs.asked;
    Enter(hs, ReadCertificateRequest);
    if hs.p.hello.usesCert {
      hs.ep.FreeBuffer();
    }
    Complete(hs, was, since, ReadCertificateRequest, ReadServerHelloDone, Ok);
    return Ok;
  }

  method DoReadCertificateRequest(hs: Handshake) returns (w: Wait)
    requires hs.Ready() && hs.state == C(ReadCertificateRequest)
    modifies hs, hs.ep
    ensures hs.Stepped(w)
  {
    hide FromSide, Entries, Polite, Speaker, NoHvr, Endpoint.Valid, Endpoint.Settled, Endpoint.Ahead, Handshake.Ready,
         Handshake.Paused, Handshake.Orderly, Handshake.Moved, CS.Sent, CS.Received, CS.Keys, CS.Checked,
         Handshake.Misfit, Handshake.Justified, Weight;
    ghost var was, since := hs.p, hs.asked;
    Enter(hs, ReadCertificateRequest);
    if hs.p.hello.usesCert && !hs.ep.HasMessage() {
      hs.Waits(AwaitMessage, since);
      return AwaitMessage;
    }
    if !hs.p.hello.usesCert || hs.ep.inbox[0].typ == ServerHelloDone {
      w := NoRequest(hs);
      return;
    }
    if hs.ep.inbox[0].typ != CertificateRequest {
      Unexpected(hs, ReadCertificateRequest);
      hs.Fails(was, since);
      return Error;
    }
    w := TakeRequest(hs);
  }

  method DoReadServerHelloDone(hs: Handshake) returns (w: Wait)
    requires hs.Ready() && hs.state == C(ReadServerHelloDone)
    modifies hs, hs.ep
    ensures hs.Stepped(w)
  {
    hide FromSide, Entries, Polite, Speaker, NoHvr, Endpoint.Valid, Endpoint.Settled, Endpoint.Ahead, Handshake.Ready,
         Handshake.Paused, Handshake.Orderly, Handshake.Moved, CS.Sent, CS.Received, CS.Keys, CS.Checked,
         Handshake.Misfit, Handshake.Justified, Weight;
    ghost var was, since := hs.p, hs.asked;
    Enter(hs, ReadServerHelloDone);
    if !hs.ep.HasMessage() {
      hs.Waits(AwaitMessage, since);
      return AwaitMessage;
    }
    if hs.ep.inbox[0].typ != ServerHelloDone {
      Unexpected(hs, ReadServerHelloDone);
      hs.Fails(was, since);
      return Error;
    }
    var parsed := hs.ep.inbox[0].body == [];
    hs.ep.Take(parsed);
    if !parsed {
      Unexpected(hs, ReadServerHelloDone);
      hs.Fails(was, since);
      return Error;
    }
    Complete(hs, was, since, ReadServerHelloDone, SendClientCertificate, Ok);
    return Ok;
  }

  /** Without a certificate there is nothing to sign with, and the buffer goes. */
  method PutCertificate(hs: Handshake, hasCert: bool, body: seq<byte>)
    requires hs.ep.Valid() && hs.ep.side == Client && hs.ep.Settled() && !hs.ep.digestFailed && hs.ep.hash.Some?
    requires Speaker(hs.ep.hashed) == Client
    modifies hs.ep`outbox, hs.ep`buffer, hs.ep`hash, hs.ep`hashed, hs.ep`sent
    ensures hs.ep.Valid() && hs.ep.Settled() && Speaker(hs.ep.hashed) == Client && hs.Evolves()
    ensures hs.ep.sent == old(hs.ep.sent) + [Certificate]
    ensures hs.ep.hash.Some? && (hs.ep.buffer.Some? <==> old(hs.ep.buffer.Some?) && hasCert)
  {
    hide FromSide, Entries, Polite, Speaker, NoHvr, Endpoint.Valid, Endpoint.Settled, Endpoint.Ahead;
    if !hasCert {
      hs.ep.FreeBuffer();
    }
    hs.ep.Add(Certificate, body);
  }

  method SendCertificate(hs: Handshake) returns (w: Wait)
    requires hs.Ready() && hs.state == C(SendClientCertificate)
    requires hs.p.auth.certRequest
    modifies hs, hs.ep
    ensures hs.Stepped(w)
  {
    hide FromSide, Entries, Polite, Speaker, NoHvr, Endpoint.Valid, Endpoint.Settled, Endpoint.Ahead, Handshake.Ready,
         Handshake.Paused, Handshake.Orderly, Handshake.Moved, CS.Sent, CS.Received, CS.Keys, CS.Checked,
         Handshake.Misfit, Handshake.Justified, Weight;
    ghost var was, since := hs.p, hs.asked;
    Enter(hs, SendClientCertificate);
    var hasCert, body: seq<byte> := *, *;
    var ok := hs.Ask();
    hs.p := hs.p.(auth := hs.p.auth.(hasCert := hasCert));
    if !ok {
      hs.Fails(was, since);
      return Error;
    }
    PutCertificate(hs, hasCert, body);
    Complete(hs, was, since, SendClientCertificate, SendClientKeyExchange, Ok);
    return Ok;
  }

  method DoSendClientCertificate(hs: Handshake) returns (w: Wait)
    requires hs.Ready() && hs.state == C(SendClientCertificate)
    modifies hs, hs.ep
    ensures hs.Stepped(w)
  {
    hide FromSide, Entries, Polite, Speaker, NoHvr, Endpoint.Valid, Endpoint.Settled, Endpoint.Ahead, Handshake.Ready,
         Handshake.Paused, Handshake.Orderly, Handshake.Moved, CS.Sent, CS.Received, CS.Keys, CS.Checked,
         Handshake.Misfit, H.Speaks;
    ghost var was, since := hs.p, hs.asked;
    Enter(hs, SendClientCertificate);
    if !hs.p.auth.certRequest {
      Complete(hs, was, since, SendClientCertificate, SendClientKeyExchange, Ok);
      return Ok;
    }
    var chosen := hs.Ask();  // the certificate callback
    if !chosen {
      hs.Fails(was, since);
      return Error;
    }
    var ready := hs.Ask();
    if !ready {
      hs.Waits(X509Lookup, since);
      return X509Lookup;
    }
    w := SendCertificate(hs);
  }

  method PutClientExchange(hs: Handshake) returns (w: Wait)
    requires hs.Ready() && hs.state == C(SendClientKeyExchange)
    modifies hs, hs.ep
    ensures hs.Stepped(w)
  {
    hide FromSide, Entries, Polite, Speaker, NoHvr, Endpoint.Valid, Endpoint.Settled, Endpoint.Ahead, Handshake.Ready,
         Handshake.Paused, Handshake.Orderly, Handshake.Moved, CS.Sent, CS.Received, CS.Keys, CS.Checked,
         Handshake.Misfit, Handshake.Justified, Weight;
    ghost var was, since := hs.p, hs.asked;
    Enter(hs, SendClientKeyExchange);
    var body: seq<byte> := *;
    hs.ep.Add(ClientKeyExchange, body);
    var derived := hs.Ask();
    if !derived {
      hs.Fails(was, since);
      return Error;
    }
    Complete(hs, was, since, SendClientKeyExchange, SendClientCertificateVerify, Ok);
    return Ok;
  }

  method DoSendClientKeyExchange(hs: Handshake) returns (w: Wait)
    requires hs.Ready() && hs.state == C(SendClientKeyExchange)
    modifies hs, hs.ep
    ensures hs.Stepped(w)
  {
    hide FromSide, Entries, Polite, Speaker, NoHvr, Endpoint.Valid, Endpoint.Settled, Endpoint.Ahead, Handshake.Ready,
         Handshake.Paused, Handshake.Orderly, Handshake.Moved, CS.Sent, CS.Received, CS.Keys, CS.Checked,
         Handshake.Misfit, Handshake.Justified, Weight;
    ghost var was, since := hs.p, hs.asked;
    Enter(hs, SendClientKeyExchange);
    var ok := hs.Ask();
    if !ok {
      hs.Fails(was, since);
      return Error;
    }
    ghost var part := hs.asked;
    w := PutClientExchange(hs);
    hs.Since(w, part, since);
  }

  method PutVerify(hs: Handshake, body: seq<byte>)
    requires hs.ep.Valid() && hs.ep.side == Client && hs.ep.Settled() && !hs.ep.digestFailed && hs.ep.hash.Some?
    requires Speaker(hs.ep.hashed) == Client && hs.ep.Signed(hs.ep.hashed, body)
    modifies hs.ep`outbox, hs.ep`buffer, hs.ep`hash, hs.ep`hashed, hs.ep`sent
    ensures hs.ep.Valid() && hs.ep.Settled() && Speaker(hs.ep.hashed) == Client && hs.Evolves()
    ensures hs.ep.hashed == old(hs.ep.hashed) + [Entry(Client, CertificateVerify, body)]
    ensures hs.ep.sent == old(hs.ep.sent) + [CertificateVerify] && hs.ep.hash.Some? && hs.ep.buffer.None?
  {
    hide FromSide, Entries, Polite, Speaker, NoHvr, Endpoint.Valid, Endpoint.Settled, Endpoint.Ahead;
    hs.ep.Add(CertificateVerify, body);
    hs.ep.FreeBuffer();
  }

  /** The signature covers the whole transcript so far, and may have to be waited for. */
  method SendVerify(hs: Handshake) returns (w: Wait)
    requires hs.Ready() && hs.state == C(SendClientCertificateVerify)
    requires hs.p.auth.certRequest && hs.p.auth.hasCert
    modifies hs, hs.ep
    ensures hs.Stepped(w)
    ensures w == Ok ==>
              && |hs.ep.hashed| == |old(hs.ep.hashed)| + 1
              && hs.ep.hashed[|old(hs.ep.hashed)|].typ == CertificateVerify
              && hs.ep.Signed(old(hs.ep.hashed), hs.ep.hashed[|old(hs.ep.hashed)|].body)
  {
    hide FromSide, Entries, Polite, Speaker, NoHvr, Endpoint.Valid, Endpoint.Settled, Endpoint.Ahead, Handshake.Ready,
         Handshake.Paused, Handshake.Orderly, Handshake.Moved, CS.Sent, CS.Received, CS.Keys, CS.Checked,
         Handshake.Misfit, Handshake.Justified, Weight;
    ghost var was, since := hs.p, hs.asked;
    Enter(hs, SendClientCertificateVerify);
    var nonce: nat := *;
    var signed := hs.ep.UseBuffer();
    var ready := hs.Ask();
    if !ready {
      hs.Waits(PrivateKeyOperation, since);
      return PrivateKeyOperation;
    }
    var ok := hs.Ask();
    if !ok {
      hs.Fails(was, since);
      return Error;
    }
    hs.ep.SignedBy(signed, nonce);
    PutVerify(hs, hs.ep.sign(signed, nonce));
    Complete(hs, was, since, SendClientCertificateVerify, SendClientFinished, Ok);
    return Ok;
  }

  method DoSendClientCertificateVerify(hs: Handshake) returns (w: Wait)
    requires hs.Ready() && hs.state == C(SendClientCertificateVerify)
    modifies hs, hs.ep
    ensures hs.Stepped(w)
    ensures w == Ok && old(hs.p.auth.certRequest && hs.p.auth.hasCert) ==>
              && |hs.ep.hashed| == |old(hs.ep.hashed)| + 1
              && hs.ep.hashed[|old(hs.ep.hashed)|].typ == CertificateVerify
              && hs.ep.Signed(old(hs.ep.hashed), hs.ep.hashed[|old(hs.ep.hashed)|].body)
  {
    hide FromSide, Entries, Polite, Speaker, NoHvr, Endpoint.Valid, Endpoint.Settled, Endpoint.Ahead, Handshake.Ready,
         Handshake.Paused, Handshake.Orderly, Handshake.Moved, CS.Sent, CS.Received, CS.Keys, CS.Checked,
         Handshake.Misfit, Handshake.Justified, Weight;
    ghost var was, since := hs.p, hs.asked;
    Enter(hs, SendClientCertificateVerify);
    if hs.p.auth.certRequest && hs.p.auth.hasCert {
      w := SendVerify(hs);
      return;
    }
    Complete(hs, was, since, SendClientCertificateVerify, SendClientFinished, Ok);
    return Ok;
  }

  method FinishUnderKeys(hs: Handshake, body: seq<byte>, idBody: seq<byte>)
    requires hs.ep.Valid() && hs.ep.side == Client && hs.ep.Settled() && !hs.ep.digestFailed && hs.ep.hash.Some?
    requires Speaker(hs.ep.hashed) == Client
    modifies hs.ep`outbox, hs.ep`buffer, hs.ep`hash, hs.ep`hashed, hs.ep`sent, hs.ep`keys
    ensures hs.ep.Valid() && hs.ep.hash.Some? && hs.Evolves()
    ensures hs.ep.buffer.Some? == old(hs.ep.buffer.Some?)
    ensures hs.ep.Settled() && Speaker(hs.ep.hashed) == Server && hs.ep.keys == old(hs.ep.keys) + [SentFinished]
    ensures hs.ep.sent == Then(Then(old(hs.ep.sent), hs.p.exts.nextProto, NextProto),
                               hs.p.exts.channelId, ChannelId) + [Finished]
  {
    hide FromSide, Entries, Polite, Speaker, Endpoint.Valid, Endpoint.Settled, Endpoint.Ahead, NoHvr;
    if hs.p.exts.nextProto {
      hs.ep.Add(NextProto, body);
    }
    if hs.p.exts.channelId {
      hs.ep.Add(ChannelId, idBody);
    }
    hs.ep.SendFinished();
  }

  /** The last flight of a client: keys first, then everything that is sent under them. */
  method SendUnderKeys(hs: Handshake, body: seq<byte>, idBody: seq<byte>) returns (ok: bool)
    requires hs.ep.Valid() && hs.ep.side == Client && hs.ep.Settled() && !hs.ep.digestFailed && hs.ep.hash.Some?
    requires Speaker(hs.ep.hashed) == Client
    modifies hs`asked, hs.ep
    ensures hs.ep.Valid() && !hs.ep.digestFailed && hs.ep.hash.Some? && hs.Evolves()
    ensures hs.asked > old(hs.asked) && (ok <==> !hs.Refused(old(hs.asked)))
    ensures hs.ep.buffer.Some? == old(hs.ep.buffer.Some?) && hs.ep.got == old(hs.ep.got)
    ensures ok ==> hs.ep.Settled() && Speaker(hs.ep.hashed) == Server && hs.ep.keys == old(hs.ep.keys) + SENT
    ensures ok ==> hs.ep.sent == Then(Then(old(hs.ep.sent), hs.p.exts.nextProto, NextProto),
                                      hs.p.exts.channelId, ChannelId) + [Finished]
  {
    hide FromSide, Entries, Polite, Speaker, Endpoint.Valid, Endpoint.Settled, Endpoint.Ahead, NoHvr;
    ok := hs.Ask();  // whether the keys can be derived
    hs.ep.AddCcs(ok);
    if !ok {
      return;
    }
    FinishUnderKeys(hs, body, idBody);
  }

  method DoSendClientFinished(hs: Handshake) returns (w: Wait)
    requires hs.Ready() && hs.state == C(SendClientFinished)
    modifies hs, hs.ep
    ensures hs.Stepped(w)
  {
    hide FromSide, Entries, Polite, Speaker, NoHvr, Endpoint.Valid, Endpoint.Settled, Endpoint.Ahead, Handshake.Ready,
         Handshake.Paused, Handshake.Orderly, Handshake.Moved, CS.Sent, CS.Received, CS.Keys, CS.Checked,
         Handshake.Misfit, Handshake.Justified, Weight;
    ghost var was, since := hs.p, hs.asked;
    Enter(hs, SendClientFinished);
    var body: seq<byte>, idBody: seq<byte> := *, *;
    if hs.p.exts.channelId {
      var answered := hs.Ask();
      if !answered {
        hs.Waits(ChannelIdLookup, since);
        return ChannelIdLookup;
      }
    }
    var sent := SendUnderKeys(hs, body, idBody);
    if !sent {
      hs.Fails(was, since);
      return Error;
    }
    Complete(hs, was, since, SendClientFinished, FinishFlight, Flush);
    return Flush;
  }

  /** A full handshake may report early (False Start) before the server has finished. */
  method DoFinishFlight(hs: Handshake) returns (w: Wait)
    requires hs.Ready() && hs.state == C(FinishFlight)
    modifies hs, hs.ep
    ensures hs.Stepped(w)
  {
    hide FromSide, Entries, Polite, Speaker, NoHvr, Endpoint.Valid, Endpoint.Settled, Endpoint.Ahead, Handshake.Ready,
         Handshake.Paused, Handshake.Orderly, Handshake.Moved, CS.Sent, CS.Received, CS.Keys, CS.Checked,
         Handshake.Misfit, Handshake.Justified, Weight;
    ghost var was, since := hs.p, hs.asked;
    Enter(hs, FinishFlight);
    if hs.p.hello.resumed {
      Complete(hs, was, since, FinishFlight, FinishClientHandshake, Ok);
      return Ok;
    }
    var falseStart := *;
    var recorded := hs.Ask();
    if !recorded {
      hs.Fails(was, since);
      return Error;
    }
    w := if falseStart then EarlyReturn else Ok;
    Complete(hs, was, since, FinishFlight, ReadSessionTicket, w);
  }

  method TakeTicket(hs: Handshake) returns (ok: bool)
    requires hs.ep.Valid() && hs.ep.side == Client && hs.ep.Settled() && !hs.ep.digestFailed
    requires hs.ep.HasMessage() && hs.ep.inbox[0].typ == NewSessionTicket
    modifies hs`p, hs`asked, hs.ep`buffer, hs.ep`hash, hs.ep`hashed, hs.ep`got, hs.ep`inbox, hs.ep`consumed
    ensures hs.asked > old(hs.asked) && (ok <==> !hs.Refused(old(hs.asked)))
    ensures hs.ep.Valid() && hs.Evolves() && CS.Decides(ReadSessionTicket, old(hs.p), hs.p)
    ensures hs.ep.buffer.Some? == old(hs.ep.buffer.Some?) && hs.ep.hash.Some? == old(hs.ep.hash.Some?)
    ensures hs.p.hello.resumed == old(hs.p.hello.resumed) && Speaker(hs.ep.hashed) == Server
    ensures ok ==> hs.ep.Settled() && hs.p.seen.gotTicket && hs.ep.got == old(hs.ep.got) + [NewSessionTicket]
  {
    hide FromSide, Entries, Polite, Speaker, Endpoint.Valid, Endpoint.Settled, Endpoint.Ahead, NoHvr;
    var empty := *;
    ok := hs.Ask();  // it parses and, unless it is empty, can be stored
    hs.ep.Take(ok);
    hs.p := hs.p.(seen := hs.p.seen.(gotTicket := true));
    if ok && empty {
      hs.p := hs.p.(exts := hs.p.exts.(ticketExpected := false));  // the server changed its mind
    }
  }

  method AcceptTicket(hs: Handshake) returns (w: Wait)
    requires hs.Ready() && hs.state == C(ReadSessionTicket)
    requires hs.ep.HasMessage() && hs.ep.inbox[0].typ == NewSessionTicket
    modifies hs, hs.ep
    ensures hs.Stepped(w)
  {
    hide FromSide, Entries, Polite, Speaker, NoHvr, Endpoint.Valid, Endpoint.Settled, Endpoint.Ahead, Handshake.Ready,
         Handshake.Paused, Handshake.Orderly, Handshake.Moved, CS.Sent, CS.Received, CS.Keys, CS.Checked, CS.Decides;
    ghost var was, since := hs.p, hs.asked;
    Enter(hs, ReadSessionTicket);
    var taken := TakeTicket(hs);
    if !taken {
      hs.Fails(was, since);
      return Error;
    }
    Complete(hs, was, since, ReadSessionTicket, ProcessChangeCipherSpec, AwaitCcs);
    return AwaitCcs;
  }

  method DoReadSessionTicket(hs: Handshake) returns (w: Wait)
    requires hs.Ready() && hs.state == C(ReadSessionTicket)
    modifies hs, hs.ep
    ensures hs.Stepped(w)
  {
    hide FromSide, Entries, Polite, Speaker, NoHvr, Endpoint.Valid, Endpoint.Settled, Endpoint.Ahead, Handshake.Ready,
         Handshake.Paused, Handshake.Orderly, Handshake.Moved, CS.Sent, CS.Received, CS.Keys, CS.Checked,
         Handshake.Misfit, Handshake.Justified, Weight;
    ghost var was, since := hs.p, hs.asked;
    Enter(hs, ReadSessionTicket);
    if !hs.p.exts.ticketExpected {
      hs.p := hs.p.(seen := hs.p.seen.(gotTicket := false));
      Complete(hs, was, since, ReadSessionTicket, ProcessChangeCipherSpec, AwaitCcs);
      return AwaitCcs;
    }
    if !hs.ep.HasMessage() {
      hs.Waits(AwaitMessage, since);
      return AwaitMessage;
    }
    if hs.ep.inbox[0].typ != NewSessionTicket {
      Unexpected(hs, ReadSessionTicket);
      hs.Fails(was, since);
      return Error;
    }
    w := AcceptTicket(hs);
  }

  method DoProcessChangeCipherSpec(hs: Handshake) returns (w: Wait)
    requires hs.Ready() && hs.state == C(ProcessChangeCipherSpec)
    modifies hs, hs.ep
    ensures hs.Stepped(w)
  {
    hide FromSide, Entries, Polite, Speaker, NoHvr, Endpoint.Valid, Endpoint.Settled, Endpoint.Ahead, Handshake.Ready,
         Handshake.Paused, Handshake.Orderly, Handshake.Moved, CS.Sent, CS.Received, CS.Keys, CS.Checked,
         Handshake.Misfit, Handshake.Justified, Weight;
    ghost var was, since := hs.p, hs.asked;
    Enter(hs, ProcessChangeCipherSpec);
    var derived := hs.Ask();
    if !derived {
      hs.Fails(was, since);
      return Error;
    }
    hs.ep.ReadKeys();
    Complete(hs, was, since, ProcessChangeCipherSpec, ReadServerFinished, Ok);
    return Ok;
  }

  method DoReadServerFinished(hs: Handshake) returns (w: Wait)
    requires hs.Ready() && hs.state == C(ReadServerFinished)
    modifies hs, hs.ep
    ensures hs.Stepped(w)
  {
    hide FromSide, Entries, Polite, Speaker, NoHvr, Endpoint.Valid, Endpoint.Settled, Endpoint.Ahead, Handshake.Ready,
         Handshake.Paused, Handshake.Orderly, Handshake.Moved, CS.Sent, CS.Received, CS.Keys, CS.Checked,
         Handshake.Misfit, Handshake.Justified, Weight;
    ghost var was, since := hs.p, hs.asked;
    Enter(hs, ReadServerFinished);
    if !hs.ep.HasMessage() {
      hs.Waits(AwaitMessage, since);
      return AwaitMessage;
    }
    w := hs.ep.GetFinished();
    if w != Ok {
      NotFinished(hs);
      hs.Fails(was, since);
      return Error;
    }
    Complete(hs, was, since, ReadServerFinished,
             if hs.p.hello.resumed then SendClientFinished else FinishClientHandshake, Ok);
    return Ok;
  }

  method DoFinishClientHandshake(hs: Handshake) returns (w: Wait)
    requires hs.Ready() && hs.state == C(FinishClientHandshake)
    modifies hs, hs.ep
    ensures hs.Stepped(w)
  {
    hide FromSide, Entries, Polite, Speaker, NoHvr, Endpoint.Valid, Endpoint.Settled, Endpoint.Ahead, Handshake.Ready,
         Handshake.Paused, Handshake.Orderly, Handshake.Moved, CS.Sent, CS.Received, CS.Keys, CS.Checked,
         Handshake.Misfit, Handshake.Justified, Weight;
    ghost var was, since := hs.p, hs.asked;
    Enter(hs, FinishClientHandshake);
    var stored := hs.Ask();
    if !stored {
      hs.Fails(was, since);
      return Error;
    }
    Complete(hs, was, since, FinishClientHandshake, Done, Ok);
    return Ok;
  }

  /** One turn of the loop of ssl_client_handshake. */
  method DoState(hs: Handshake) returns (w: Wait)
    requires hs.Ready() && hs.state.C? && hs.state != C(Done)
    modifies hs, hs.ep
    ensures hs.Stepped(w)
  {
    hide *;
    match hs.state.c
    case StartConnect => w := DoStartConnect(hs);
    case EnterEarlyData => w := DoEnterEarlyData(hs);
    case ReadHelloVerifyRequest => w := DoReadHelloVerifyRequest(hs);
    case ReadServerHello => w := DoReadServerHello(hs);
    case ReadServerCertificate => w := DoReadServerCertificate(hs);
    case ReadCertificateStatus => w := DoReadCertificateStatus(hs);
    case VerifyServerCertificate => w := DoVerifyServerCertificate(hs);
    case ReadServerKeyExchange => w := DoReadServerKeyExchange(hs);
    case ReadCertificateRequest => w := DoReadCertificateRequest(hs);
    case ReadServerHelloDone => w := DoReadServerHelloDone(hs);
    case SendClientCertificate => w := DoSendClientCertificate(hs);
    case SendClientKeyExchange => w := DoSendClientKeyExchange(hs);
    case SendClientCertificateVerify => w := DoSendClientCertificateVerify(hs);
    case SendClientFinished => w := DoSendClientFinished(hs);
    case FinishFlight => w := DoFinishFlight(hs);
    case ReadSessionTicket => w := DoReadSessionTicket(hs);
    case ProcessChangeCipherSpec => w := DoProcessChangeCipherSpec(hs);
    case ReadServerFinished => w := DoReadServerFinished(hs);
    case FinishClientHandshake => w := DoFinishClientHandshake(hs);
  }

  /** ssl_client_handshake: steps until one cannot go on. */
  method Run(hs: Handshake) returns (w: Wait)
    requires hs.Ready() && hs.state.C?
    modifies hs, hs.ep
    ensures hs.Ran(w)
  {
    hide FromSide, Entries, Polite, InOrder, AllBelow, Endpoint.Valid, Endpoint.Settled, NoHvr, H.Sent, H.Received,
         H.Keys, H.Rank, H.Successor, Handshake.Fits, Handshake.Orderly;
    ghost var first := true;
    while hs.state != C(Done)
      invariant hs.Ready() && hs.state.C? && hs.Evolves() && hs.asked >= old(hs.asked)
      invariant first ==> hs.state == old(hs.state) && hs.p == old(hs.p) && hs.ep.inbox == old(hs.ep.inbox)
      invariant !first ==> H.Rank(hs.state, hs.p.hello.resumed) > old(H.Rank(hs.state, hs.p.hello.resumed))
      decreases 19 - H.Rank(hs.state, hs.p.hello.resumed)
    {
      w := DoState(hs);
      if w != Ok {
        return;
      }
      first := false;
    }
    return Ok;
  }

  /** A client that is done consumed one ChangeCipherSpec and switched its read keys before it verified one Finished,
      switched its write keys before it sent one Finished, and completed no state twice. */
  lemma ClientDone(hs: Handshake)
    requires hs.Paused(hs.wait) && hs.state == C(Done)
    ensures hs.ep.keys == if hs.p.hello.resumed then GOT + SENT else SENT + GOT
    ensures forall i, j | 0 <= i < j < |hs.completed| :: hs.completed[i] != hs.completed[j]
    ensures hs.ep.Settled() && hs.ep.sent == CS.Sent(Done, hs.p) && hs.ep.got == CS.Received(Done, hs.p)
    ensures Ends(hs.ep.sent) && Ends(hs.ep.got) && hs.ep.buffer.None?
    ensures !hs.p.hello.resumed ==>
              && (hs.p.hello.usesCert ==> hs.p.seen.serverVerified)
              && (hs.p.hello.requiresSke ==> ServerKeyExchange in hs.ep.got)
              && (hs.p.auth.certRequest && hs.p.auth.hasCert ==> CertificateVerify in hs.ep.sent)
  {
    hide Endpoint.Valid, Endpoint.Settled, Ends;
    CS.DoneEnds(hs.p);
    forall i, j | 0 <= i < j < |hs.completed| ensures hs.completed[i] != hs.completed[j] {
      assert H.Rank(hs.completed[i], hs.p.hello.resumed) < H.Rank(hs.completed[j], hs.p.hello.resumed);
    }
  }
}
