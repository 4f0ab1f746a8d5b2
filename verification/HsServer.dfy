/** The server's handshake driver for TLS 1.2 and below. */
module HsServer {
  import opened Bytes
  import opened HsStages
  import opened HsTranscript
  import opened HsEndpoint
  import opened HsHandshake
  import opened HsServerStages
  import H = HsHandshake

  /** What a server finds when it enters a state. */
  lemma Enter(hs: Handshake, at: SS.State)
    requires hs.Ready() && hs.state == S(at)
    ensures hs.ep.Valid() && hs.ep.Settled() && !hs.ep.digestFailed && hs.ep.side == Server
    ensures !SS.Finishing(at) ==> (SS.Speaks(at) <==> Speaker(hs.ep.hashed) == Server)
    ensures hs.ep.buffer.Some? <==> SS.Buffered(at, hs.p)
    ensures hs.ep.hash.Some? <==> !SS.BeforeParameters(at)
    ensures SS.HoldsHello(at) ==> hs.ep.HasMessage() && hs.ep.inbox[0].typ == ClientHello
    ensures SS.BeforeParameters(at) ==> hs.ep.hashed == []
    ensures SS.Checked(at, hs.p) && hs.Orderly(hs.p)
    ensures hs.ep.sent == SS.Sent(at, hs.p) && hs.ep.got == SS.Received(at, hs.p) && hs.ep.keys == SS.Keys(at, hs.p)
  {
    hide Endpoint.Valid, Endpoint.Settled, SS.Checked, SS.Sent, SS.Received, SS.Keys, SS.Buffered,
         SS.BeforeParameters, SS.HoldsHello, SS.Speaks, SS.Finishing, InOrder, AllBelow, H.Rank;
  }

  /** A message that cannot come next. */
  lemma Unexpected(hs: Handshake, at: SS.State)
    requires hs.state == S(at) && hs.ep.HasMessage()
    requires !SS.Expects(at, hs.p, hs.ep.inbox[0].typ, hs.ep.inbox[0].body)
    ensures hs.Misfit()
  {
    hide SS.Expects;
  }

  lemma NotFinished(hs: Handshake)
    requires hs.state == S(ReadClientFinished)
    requires hs.ep.digestFailed || (hs.ep.HasMessage() && hs.ep.inbox[0].typ != Finished)
    ensures hs.Misfit()
  {
  }

  /** What a server leaves behind when it completes a state. */
  method Complete(hs: Handshake, ghost was: Params, ghost since: nat, at: SS.State, next: SS.State, w: Wait)
    requires hs.state == S(at) && at != Done && hs.Orderly(was) && hs.asked >= since
    requires SS.Decides(at, was, hs.p) && next == SS.Successor(at, hs.p)
    requires hs.ep.Valid() && hs.ep.Settled() && !hs.ep.digestFailed && hs.ep.side == Server
    requires !SS.Finishing(next) ==> (SS.Speaks(next) <==> Speaker(hs.ep.hashed) == Server)
    requires hs.ep.buffer.Some? <==> SS.Buffered(next, hs.p)
    requires hs.ep.hash.Some? <==> !SS.BeforeParameters(next)
    requires SS.HoldsHello(next) ==> hs.ep.HasMessage() && hs.ep.inbox[0].typ == ClientHello
    requires SS.BeforeParameters(next) ==> hs.ep.hashed == []
    requires hs.ep.sent == SS.Added(at, hs.p, SS.Sent(at, was))
    requires hs.ep.got == SS.Taken(at, hs.p, SS.Received(at, was))
    requires hs.ep.keys == SS.Keyed(at, SS.Keys(at, was))
    requires SS.Leaves(at, w)
    modifies hs`state, hs`completed
    ensures hs.Paused(w) && hs.state == S(next) && hs.completed == old(hs.completed) + [S(at)]
    ensures hs.Moved(S(at), was, w, true) && hs.Moved(S(at), was, w, false) && hs.Justified(w, since)
  {
    hide Endpoint.Valid, Endpoint.Settled, FromSide, Entries, Polite, Speaker, SS.Checked, SS.Decides, SS.Sent,
         SS.Received, SS.Keys, SS.Added, SS.Taken, SS.Keyed, SS.Buffered, SS.BeforeParameters, SS.HoldsHello,
         SS.Speaks, SS.Finishing, SS.Successor, InOrder, AllBelow, H.Rank, Handshake.Orderly, Handshake.Paused,
         Handshake.Moved, Handshake.Justified;
    hs.Advance(was, since, S(next), w);
  }

  method DoStartAccept(hs: Handshake) returns (w: Wait)
    requires hs.Ready() && hs.state == S(StartAccept)
    modifies hs, hs.ep
    ensures hs.Stepped(w)
  {
    hide FromSide, Entries, Polite, Speaker, NoHvr, Endpoint.Valid, Endpoint.Settled, Endpoint.Ahead, Handshake.Ready,
         Handshake.Paused, Handshake.Orderly, Handshake.Moved, SS.Sent, SS.Received, SS.Keys, SS.Checked,
         Handshake.Misfit, Handshake.Justified, Weight;
    ghost var was, since := hs.p, hs.asked;
    Enter(hs, StartAccept);
    Complete(hs, was, since, StartAccept, ReadClientHello, Ok);
    return Ok;
  }

  /** The ClientHello is looked at in three states, and hashed and released only in the last of them. */
  method DoReadClientHello(hs: Handshake) returns (w: Wait)
    requires hs.Ready() && hs.state == S(ReadClientHello)
    modifies hs, hs.ep
    ensures hs.Stepped(w)
  {
    hide FromSide, Entries, Polite, Speaker, NoHvr, Endpoint.Valid, Endpoint.Settled, Endpoint.Ahead, Handshake.Ready,
         Handshake.Paused, Handshake.Orderly, Handshake.Moved, SS.Sent, SS.Received, SS.Keys, SS.Checked,
         Handshake.Misfit, Handshake.Justified, Weight;
    ghost var was, since := hs.p, hs.asked;
    Enter(hs, ReadClientHello);
    if !hs.ep.HasMessage() {
      hs.Waits(AwaitMessage, since);
      return AwaitMessage;
    }
    if hs.ep.inbox[0].typ != ClientHello {
      Unexpected(hs, ReadClientHello);
      hs.Fails(was, since);
      return Error;
    }
    var accepted := hs.Ask();  // it parses, and the early callback does not refuse it
    if !accepted {
      hs.Fails(was, since);
      return Error;
    }
    var ready := hs.Ask();
    if !ready {
      hs.Waits(CertificateSelection, since);
      return CertificateSelection;
    }
    var nextProto, channelId := *, *;
    hs.p := hs.p.(exts := hs.p.exts.(nextProto := nextProto, channelId := channelId));
    Complete(hs, was, since, ReadClientHello, SelectCertificate, Ok);
    return Ok;
  }

  method DoSelectCertificate(hs: Handshake) returns (w: Wait)
    requires hs.Ready() && hs.state == S(SelectCertificate)
    modifies hs, hs.ep
    ensures hs.Stepped(w)
  {
    hide FromSide, Entries, Polite, Speaker, NoHvr, Endpoint.Valid, Endpoint.Settled, Endpoint.Ahead, Handshake.Ready,
         Handshake.Paused, Handshake.Orderly, Handshake.Moved, SS.Sent, SS.Received, SS.Keys, SS.Checked,
         Handshake.Misfit, Handshake.Justified, Weight;
    ghost var was, since := hs.p, hs.asked;
    Enter(hs, SelectCertificate);
    var chosen := hs.Ask();
    if !chosen {
      hs.Fails(was, since);
      return Error;
    }
    var ready := hs.Ask();
    if !ready {
      hs.Waits(X509Lookup, since);
      return X509Lookup;
    }
    var shared := hs.Ask();  // a cipher
    if !shared {
      hs.Fails(was, since);
      return Error;
    }
    Complete(hs, was, since, SelectCertificate, SelectParameters, Ok);
    return Ok;
  }

  /** The hash is started with the cipher known, and the buffer kept only where a certificate is asked for. */
  method HashClientHello(hs: Handshake)
    requires hs.ep.Valid() && hs.ep.side == Server && hs.ep.Settled() && !hs.ep.digestFailed && hs.ep.buffer.Some?
    requires hs.ep.HasMessage() && hs.ep.inbox[0].typ == ClientHello
    modifies hs.ep`buffer, hs.ep`hash, hs.ep`hashed, hs.ep`got, hs.ep`inbox, hs.ep`consumed
    ensures hs.ep.Valid() && hs.ep.Settled() && hs.Evolves() && Speaker(hs.ep.hashed) == Server
    ensures hs.ep.got == old(hs.ep.got) + [ClientHello]
    ensures hs.ep.hash.Some? && (hs.ep.buffer.Some? <==> hs.p.auth.certRequest)
  {
    hide FromSide, Entries, Polite, Speaker, NoHvr, Endpoint.Valid, Endpoint.Settled, Endpoint.Ahead;
    hs.ep.InitHash();
    hs.ep.Hash();
    if !hs.p.auth.certRequest {
      hs.ep.FreeBuffer();
    }
    hs.ep.Next();
  }

  /** Whether a session is resumed, and what else the ClientHello and the cipher decide. */
  method DecideParameters(hs: Handshake)
    modifies hs`p
    ensures SS.Decides(SelectParameters, old(hs.p), hs.p)
  {
    var resumed, usesCert, ticketExpected, asks := *, *, *, *;
    hs.p := hs.p.(hello := hs.p.hello.(resumed := resumed, usesCert := usesCert),
                  exts := hs.p.exts.(ticketExpected := ticketExpected),
                  auth := hs.p.auth.(certRequest := asks && !resumed && usesCert));
  }

  /** The session lookup may have to be waited for, any number of times; the ClientHello is still held. */
  method DoSelectParameters(hs: Handshake) returns (w: Wait)
    requires hs.Ready() && hs.state == S(SelectParameters)
    modifies hs, hs.ep
    ensures hs.Stepped(w)
  {
    hide FromSide, Entries, Polite, Speaker, NoHvr, Endpoint.Valid, Endpoint.Settled, Endpoint.Ahead, Handshake.Ready,
         Handshake.Paused, Handshake.Orderly, Handshake.Moved, SS.Sent, SS.Received, SS.Keys, SS.Checked, SS.Decides,
         Handshake.Misfit, Handshake.Justified, Weight;
    ghost var was, since := hs.p, hs.asked;
    Enter(hs, SelectParameters);
    var accepted := hs.Ask();
    if !accepted {
      hs.Fails(was, since);
      return Error;
    }
    var ready := hs.Ask();
    if !ready {
      hs.Waits(PendingSession, since);
      return PendingSession;
    }
    DecideParameters(hs);
    HashClientHello(hs);
    Complete(hs, was, since, SelectParameters, SendServerHello, Ok);
    return Ok;
  }

  lemma AsksInFull(p: Params)
    requires SS.Checked(SendServerHello, p)
    ensures p.auth.certRequest ==> !p.hello.resumed
  {
  }

  /** Extensions that cannot be used together are dropped. */
  method DecideServerHello(hs: Handshake)
    modifies hs`p
    ensures SS.Decides(SendServerHello, old(hs.p), hs.p)
    ensures hs.p.hello == old(hs.p.hello) && hs.p.auth == old(hs.p.auth)
  {
    var keepsId, keepsProto, status := *, *, *;
    hs.p := hs.p.(exts := hs.p.exts.(channelId := hs.p.exts.channelId && keepsId, statusExpected := status,
                                     nextProto := hs.p.exts.nextProto && keepsProto));
  }

  method PutServerHello(hs: Handshake) returns (w: Wait)
    requires hs.Ready() && hs.state == S(SendServerHello)
    modifies hs, hs.ep
    ensures hs.Stepped(w)
  {
    hide FromSide, Entries, Polite, Speaker, NoHvr, Endpoint.Valid, Endpoint.Settled, Endpoint.Ahead, Handshake.Ready,
         Handshake.Paused, Handshake.Orderly, Handshake.Moved, SS.Sent, SS.Received, SS.Keys, SS.Checked, SS.Decides,
         Handshake.Misfit, Handshake.Justified, Weight;
    ghost var was, since := hs.p, hs.asked;
    Enter(hs, SendServerHello);
    AsksInFull(was);
    var body: seq<byte> := *;
    DecideServerHello(hs);
    hs.ep.Add(ServerHello, body);
    Complete(hs, was, since, SendServerHello,
             if hs.p.hello.resumed then SendServerFinished else SendServerCertificate, Ok);
    return Ok;
  }

  method DoSendServerHello(hs: Handshake) returns (w: Wait)
    requires hs.Ready() && hs.state == S(SendServerHello)
    modifies hs, hs.ep
    ensures hs.Stepped(w)
  {
    hide FromSide, Entries, Polite, Speaker, NoHvr, Endpoint.Valid, Endpoint.Settled, Endpoint.Ahead, Handshake.Ready,
         Handshake.Paused, Handshake.Orderly, Handshake.Moved, SS.Sent, SS.Received, SS.Keys, Handshake.Misfit,
         Handshake.Justified, Weight;
    ghost var was, since := hs.p, hs.asked;
    Enter(hs, SendServerHello);
    var ok := hs.Ask();
    if !ok {
      hs.Fails(was, since);
      return Error;
    }
    ghost var part := hs.asked;
    w := PutServerHello(hs);
    hs.Since(w, part, since);
  }

  method AddCertificate(hs: Handshake, body: seq<byte>, ocsp: seq<byte>)
    requires hs.ep.Valid() && hs.ep.side == Server && hs.ep.Settled() && !hs.ep.digestFailed
    requires Speaker(hs.ep.hashed) == Server
    modifies hs.ep`outbox, hs.ep`buffer, hs.ep`hash, hs.ep`hashed, hs.ep`sent
    ensures hs.ep.Valid() && hs.ep.Settled() && hs.Evolves() && Speaker(hs.ep.hashed) == Server
    ensures hs.ep.sent == Then(Then(old(hs.ep.sent), hs.p.hello.usesCert, Certificate),
                               hs.p.hello.usesCert && hs.p.exts.statusExpected, CertificateStatus)
    ensures hs.ep.buffer.Some? == old(hs.ep.buffer.Some?) && hs.ep.hash.Some? == old(hs.ep.hash.Some?)
  {
    hide FromSide, Entries, Polite, Speaker, NoHvr, Endpoint.Valid, Endpoint.Settled, Endpoint.Ahead;
    if hs.p.hello.usesCert {
      hs.ep.Add(Certificate, body);
      if hs.p.exts.statusExpected {
        hs.ep.Add(CertificateStatus, ocsp);
      }
    }
  }

  method PutServerCertificate(hs: Handshake) returns (w: Wait)
    requires hs.Ready() && hs.state == S(SendServerCertificate)
    modifies hs, hs.ep
    ensures hs.Stepped(w)
  {
    hide FromSide, Entries, Polite, Speaker, NoHvr, Endpoint.Valid, Endpoint.Settled, Endpoint.Ahead, Handshake.Ready,
         Handshake.Paused, Handshake.Orderly, Handshake.Moved, SS.Sent, SS.Received, SS.Keys, SS.Checked,
         Handshake.Misfit, Handshake.Justified, Weight;
    ghost var was, since := hs.p, hs.asked;
    Enter(hs, SendServerCertificate);
    var hasParams, body: seq<byte>, ocsp: seq<byte> := *, *, *;
    AddCertificate(hs, body, ocsp);
    var prepared := hs.Ask();
    if !prepared {
      hs.Fails(was, since);
      return Error;
    }
    hs.p := hs.p.(seen := hs.p.seen.(hasParams := hasParams));
    Complete(hs, was, since, SendServerCertificate, SendServerKeyExchange, Ok);
    return Ok;
  }

  /** The parameters of the key exchange are assembled here and kept for the next state. */
  method DoSendServerCertificate(hs: Handshake) returns (w: Wait)
    requires hs.Ready() && hs.state == S(SendServerCertificate)
    modifies hs, hs.ep
    ensures hs.Stepped(w)
  {
    hide FromSide, Entries, Polite, Speaker, NoHvr, Endpoint.Valid, Endpoint.Settled, Endpoint.Ahead, Handshake.Ready,
         Handshake.Paused, Handshake.Orderly, Handshake.Moved, SS.Sent, SS.Received, SS.Keys, SS.Checked,
         Handshake.Misfit, Handshake.Justified, Weight;
    ghost var was, since := hs.p, hs.asked;
    Enter(hs, SendServerCertificate);
    if hs.p.hello.usesCert {
      var hasCert := hs.Ask();
      if !hasCert {
        hs.Fails(was, since);
        return Error;
      }
    }
    ghost var part := hs.asked;
    w := PutServerCertificate(hs);
    hs.Since(w, part, since);
  }

  method SendExchange(hs: Handshake) returns (w: Wait)
    requires hs.Ready() && hs.state == S(SendServerKeyExchange) && hs.p.seen.hasParams
    modifies hs, hs.ep
    ensures hs.Stepped(w)
  {
    hide FromSide, Entries, Polite, Speaker, NoHvr, Endpoint.Valid, Endpoint.Settled, Endpoint.Ahead, Handshake.Ready,
         Handshake.Paused, Handshake.Orderly, Handshake.Moved, SS.Sent, SS.Received, SS.Keys, SS.Checked,
         Handshake.Misfit, Handshake.Justified, Weight;
    ghost var was, since := hs.p, hs.asked;
    Enter(hs, SendServerKeyExchange);
    var body: seq<byte> := *;
    hs.ep.Add(ServerKeyExchange, body);
    Complete(hs, was, since, SendServerKeyExchange, SendServerHelloDone, Ok);
    return Ok;
  }

  /** The signature may have to be waited for; nothing is added until it is there. */
  method DoSendServerKeyExchange(hs: Handshake) returns (w: Wait)
    requires hs.Ready() && hs.state == S(SendServerKeyExchange)
    modifies hs, hs.ep
    ensures hs.Stepped(w)
  {
    hide FromSide, Entries, Polite, Speaker, NoHvr, Endpoint.Valid, Endpoint.Settled, Endpoint.Ahead, Handshake.Ready,
         Handshake.Paused, Handshake.Orderly, Handshake.Moved, SS.Sent, SS.Received, SS.Keys, SS.Checked,
         Handshake.Misfit, Handshake.Justified, Weight;
    ghost var was, since := hs.p, hs.asked;
    Enter(hs, SendServerKeyExchange);
    if !hs.p.seen.hasParams {
      Complete(hs, was, since, SendServerKeyExchange, SendServerHelloDone, Ok);
      return Ok;
    }
    var ok := hs.Ask();
    if !ok {
      hs.Fails(was, since);
      return Error;
    }
    if hs.p.hello.usesCert {
      var ready := hs.Ask();
      if !ready {
        hs.Waits(PrivateKeyOperation, since);
        return PrivateKeyOperation;
      }
    }
    ghost var part := hs.asked;
    w := SendExchange(hs);
    hs.Since(w, part, since);
  }

  method AddHelloDone(hs: Handshake, body: seq<byte>)
    requires hs.ep.Valid() && hs.ep.side == Server && hs.ep.Settled() && !hs.ep.digestFailed
    requires Speaker(hs.ep.hashed) == Server
    modifies hs.ep`outbox, hs.ep`buffer, hs.ep`hash, hs.ep`hashed, hs.ep`sent
    ensures hs.ep.Valid() && hs.ep.Settled() && hs.Evolves() && Speaker(hs.ep.hashed) == Client
    ensures hs.ep.sent == Then(old(hs.ep.sent), hs.p.auth.certRequest, CertificateRequest) + [ServerHelloDone]
    ensures hs.ep.buffer.Some? == old(hs.ep.buffer.Some?) && hs.ep.hash.Some? == old(hs.ep.hash.Some?)
  {
    hide FromSide, Entries, Polite, Speaker, NoHvr, Endpoint.Valid, Endpoint.Settled, Endpoint.Ahead;
    if hs.p.auth.certRequest {
      hs.ep.Add(CertificateRequest, body);
    }
    hs.ep.Add(ServerHelloDone, []);
  }

  method DoSendServerHelloDone(hs: Handshake) returns (w: Wait)
    requires hs.Ready() && hs.state == S(SendServerHelloDone)
    modifies hs, hs.ep
    ensures hs.Stepped(w)
  {
    hide FromSide, Entries, Polite, Speaker, NoHvr, Endpoint.Valid, Endpoint.Settled, Endpoint.Ahead, Handshake.Ready,
         Handshake.Paused, Handshake.Orderly, Handshake.Moved, SS.Sent, SS.Received, SS.Keys, SS.Checked,
         Handshake.Misfit, Handshake.Justified, Weight;
    ghost var was, since := hs.p, hs.asked;
    Enter(hs, SendServerHelloDone);
    var body: seq<byte> := *;
    var ok := hs.Ask();
    if !ok {
      hs.Fails(was, since);
      return Error;
    }
    AddHelloDone(hs, body);
    Complete(hs, was, since, SendServerHelloDone, ReadClientCertificate, Flush);
    return Flush;
  }

  /** Without a key there will be no CertificateVerify, and the buffer goes. */
  method TakeChain(hs: Handshake, accepted: bool, key: bool)
    requires hs.ep.Valid() && hs.ep.side == Server && hs.ep.Settled() && !hs.ep.digestFailed && hs.ep.hash.Some?
    requires hs.ep.HasMessage() && hs.ep.inbox[0].typ == Certificate
    modifies hs.ep`buffer, hs.ep`hash, hs.ep`hashed, hs.ep`got, hs.ep`inbox, hs.ep`consumed
    ensures hs.ep.Valid() && hs.Evolves() && hs.ep.hash.Some?
    ensures accepted ==> hs.ep.Settled() && hs.ep.got == old(hs.ep.got) + [Certificate]
    ensures (hs.ep.buffer.Some? <==> old(hs.ep.buffer.Some?) && key) && Speaker(hs.ep.hashed) == Client
  {
    hide FromSide, Entries, Polite, Speaker, NoHvr, Endpoint.Valid, Endpoint.Settled, Endpoint.Ahead;
    hs.ep.Take(accepted);
    if !key {
      hs.ep.FreeBuffer();
    }
  }

  /** An empty certificate list means that no key will have to be verified. */
  method TakeCertificate(hs: Handshake) returns (w: Wait)
    requires hs.Ready() && hs.state == S(ReadClientCertificate)
    requires hs.ep.HasMessage() && hs.p.auth.certRequest && hs.ep.inbox[0].typ == Certificate
    modifies hs, hs.ep
    ensures hs.Stepped(w)
  {
    hide FromSide, Entries, Polite, Speaker, NoHvr, Endpoint.Valid, Endpoint.Settled, Endpoint.Ahead, Handshake.Ready,
         Handshake.Paused, Handshake.Orderly, Handshake.Moved, SS.Sent, SS.Received, SS.Keys, SS.Checked,
         Handshake.Misfit, Handshake.Justified, Weight;
    ghost var was, since := hs.p, hs.asked;
    Enter(hs, ReadClientCertificate);
    var key := *;
    var accepted := hs.Ask();  // it parses, and is not empty where a certificate is required
    TakeChain(hs, accepted, key);
    if !accepted {
      hs.Fails(was, since);
      return Error;
    }
    hs.p := hs.p.(auth := hs.p.auth.(peerKey := key));
    Complete(hs, was, since, ReadClientCertificate, VerifyClientCertificate, Ok);
    return Ok;
  }

  method DoReadClientCertificate(hs: Handshake) returns (w: Wait)
    requires hs.Ready() && hs.state == S(ReadClientCertificate)
    modifies hs, hs.ep
    ensures hs.Stepped(w)
  {
    hide FromSide, Entries, Polite, Speaker, NoHvr, Endpoint.Valid, Endpoint.Settled, Endpoint.Ahead, Handshake.Ready,
         Handshake.Paused, Handshake.Orderly, Handshake.Moved, SS.Sent, SS.Received, SS.Keys, Handshake.Misfit,
         Handshake.Justified, Weight;
    ghost var was, since := hs.p, hs.asked;
    Enter(hs, ReadClientCertificate);
    if !hs.p.auth.certRequest {
      Complete(hs, was, since, ReadClientCertificate, VerifyClientCertificate, Ok);
      return Ok;
    }
    if !hs.ep.HasMessage() {
      hs.Waits(AwaitMessage, since);
      return AwaitMessage;
    }
    if hs.ep.inbox[0].typ != Certificate {
      Unexpected(hs, ReadClientCertificate);
      hs.Fails(was, since);
      return Error;
    }
    w := TakeCertificate(hs);
  }

  method DoVerifyClientCertificate(hs: Handshake) returns (w: Wait)
    requires hs.Ready() && hs.state == S(VerifyClientCertificate)
    modifies hs, hs.ep
    ensures hs.Stepped(w)
  {
    hide FromSide, Entries, Polite, Speaker, NoHvr, Endpoint.Valid, Endpoint.Settled, Endpoint.Ahead, Handshake.Ready,
         Handshake.Paused, Handshake.Orderly, Handshake.Moved, SS.Sent, SS.Received, SS.Keys, SS.Checked,
         Handshake.Misfit, Handshake.Justified, Weight;
    ghost var was, since := hs.p, hs.asked;
    Enter(hs, VerifyClientCertificate);
    if hs.p.auth.peerKey {
      var valid := hs.Ask();
      if !valid {
        hs.Fails(was, since);
        return Error;
      }
      var ready := hs.Ask();
      if !ready {
        hs.Waits(CertificateVerifying, since);
        return CertificateVerifying;
      }
    }
    hs.p := hs.p.(auth := hs.p.auth.(chainVerified := hs.p.auth.peerKey));
    Complete(hs, was, since, VerifyClientCertificate, ReadClientKeyExchange, Ok);
    return Ok;
  }

  method TakeClientExchange(hs: Handshake) returns (w: Wait)
    requires hs.Ready() && hs.state == S(ReadClientKeyExchange)
    requires hs.ep.HasMessage() && hs.ep.inbox[0].typ == ClientKeyExchange
    modifies hs, hs.ep
    ensures hs.Stepped(w)
  {
    hide FromSide, Entries, Polite, Speaker, NoHvr, Endpoint.Valid, Endpoint.Settled, Endpoint.Ahead, Handshake.Ready,
         Handshake.Paused, Handshake.Orderly, Handshake.Moved, SS.Sent, SS.Received, SS.Keys, SS.Checked,
         Handshake.Misfit, Handshake.Justified, Weight;
    ghost var was, since := hs.p, hs.asked;
    Enter(hs, ReadClientKeyExchange);
    var derived := hs.Ask();
    hs.ep.Take(derived);
    if !derived {
      hs.Fails(was, since);
      return Error;
    }
    Complete(hs, was, since, ReadClientKeyExchange, ReadClientCertificateVerify, Ok);
    return Ok;
  }

  /** The decryption may have to be waited for; the message is hashed only after it. */
  method DoReadClientKeyExchange(hs: Handshake) returns (w: Wait)
    requires hs.Ready() && hs.state == S(ReadClientKeyExchange)
    modifies hs, hs.ep
    ensures hs.Stepped(w)
  {
    hide FromSide, Entries, Polite, Speaker, NoHvr, Endpoint.Valid, Endpoint.Settled, Endpoint.Ahead, Handshake.Ready,
         Handshake.Paused, Handshake.Orderly, Handshake.Moved, SS.Sent, SS.Received, SS.Keys, SS.Checked,
         Handshake.Misfit, Handshake.Justified, Weight;
    ghost var was, since := hs.p, hs.asked;
    Enter(hs, ReadClientKeyExchange);
    if !hs.ep.HasMessage() {
      hs.Waits(AwaitMessage, since);
      return AwaitMessage;
    }
    if hs.ep.inbox[0].typ != ClientKeyExchange {
      Unexpected(hs, ReadClientKeyExchange);
      hs.Fails(was, since);
      return Error;
    }
    var parsed := hs.Ask();
    if !parsed {
      hs.Fails(was, since);
      return Error;
    }
    var ready := hs.Ask();
    if !ready {
      hs.Waits(PrivateKeyOperation, since);
      return PrivateKeyOperation;
    }
    ghost var part := hs.asked;
    w := TakeClientExchange(hs);
    hs.Since(w, part, since);
  }

  /** The signature is checked over the transcript before the message itself; then the buffer has served. */
  method CheckVerify(hs: Handshake) returns (ok: bool)
    requires hs.ep.Valid() && hs.ep.side == Server && hs.ep.Settled() && !hs.ep.digestFailed
    requires hs.ep.buffer.Some? && hs.ep.hash.Some? && hs.state == S(ReadClientCertificateVerify) && hs.p.auth.peerKey
    requires hs.ep.HasMessage() && hs.ep.inbox[0].typ == CertificateVerify
    modifies hs`asked, hs.ep`buffer, hs.ep`hash, hs.ep`hashed, hs.ep`got, hs.ep`inbox, hs.ep`consumed
    ensures hs.ep.Valid() && hs.Evolves() && hs.asked > old(hs.asked)
    ensures !ok ==> hs.Refused(old(hs.asked)) || hs.Misfit()
    ensures ok ==>
              && hs.ep.Settled() && hs.ep.got == old(hs.ep.got) + [CertificateVerify]
              && hs.ep.hash.Some? && hs.ep.buffer.None? && Speaker(hs.ep.hashed) == Client
              && hs.ep.accepts(old(hs.ep.hashed), old(hs.ep.inbox)[0].body)
              && hs.ep.hashed == old(hs.ep.hashed) + [Entry(Client, CertificateVerify, old(hs.ep.inbox)[0].body)]
  {
    hide FromSide, Entries, Polite, Speaker, NoHvr, Endpoint.Valid, Endpoint.Settled, Endpoint.Ahead;
    var signed := hs.ep.UseBuffer();
    var parsed := hs.Ask();
    if !parsed {
      return false;
    }
    ok := hs.ep.accepts(signed, hs.ep.inbox[0].body);
    if !ok {
      return;
    }
    hs.ep.FreeBuffer();
    hs.ep.Take(true);
  }

  method TakeVerify(hs: Handshake) returns (w: Wait)
    requires hs.Ready() && hs.state == S(ReadClientCertificateVerify)
    requires hs.ep.HasMessage() && hs.p.auth.peerKey && hs.ep.inbox[0].typ == CertificateVerify
    modifies hs, hs.ep
    ensures hs.Stepped(w)
    ensures w == Ok ==>
              && |hs.ep.hashed| == |old(hs.ep.hashed)| + 1
              && hs.ep.hashed[|old(hs.ep.hashed)|].typ == CertificateVerify
              && hs.ep.accepts(old(hs.ep.hashed), hs.ep.hashed[|old(hs.ep.hashed)|].body)
  {
    hide FromSide, Entries, Polite, Speaker, NoHvr, Endpoint.Valid, Endpoint.Settled, Endpoint.Ahead, Handshake.Ready,
         Handshake.Paused, Handshake.Orderly, Handshake.Moved, SS.Sent, SS.Received, SS.Keys, SS.Checked,
         Handshake.Misfit, Handshake.Justified, Weight;
    ghost var was, since := hs.p, hs.asked;
    Enter(hs, ReadClientCertificateVerify);
    var accepted := CheckVerify(hs);
    if !accepted {
      hs.Fails(was, since);
      return Error;
    }
    hs.p := hs.p.(auth := hs.p.auth.(verified := true));
    Complete(hs, was, since, ReadClientCertificateVerify, ReadChangeCipherSpec, Ok);
    return Ok;
  }

  /** The signature covers the transcript before the message itself. */
  method DoReadClientCertificateVerify(hs: Handshake) returns (w: Wait)
    requires hs.Ready() && hs.state == S(ReadClientCertificateVerify)
    modifies hs, hs.ep
    ensures hs.Stepped(w)
    ensures w == Ok && old(hs.p.auth.peerKey) ==>
              && |hs.ep.hashed| == |old(hs.ep.hashed)| + 1
              && hs.ep.hashed[|old(hs.ep.hashed)|].typ == CertificateVerify
              && hs.ep.accepts(old(hs.ep.hashed), hs.ep.hashed[|old(hs.ep.hashed)|].body)
  {
    hide FromSide, Entries, Polite, Speaker, NoHvr, Endpoint.Valid, Endpoint.Settled, Endpoint.Ahead, Handshake.Ready,
         Handshake.Paused, Handshake.Orderly, Handshake.Moved, SS.Sent, SS.Received, SS.Keys, SS.Checked,
         Handshake.Misfit, Handshake.Justified, Weight;
    ghost var was, since := hs.p, hs.asked;
    Enter(hs, ReadClientCertificateVerify);
    if !hs.p.auth.peerKey {
      hs.ep.FreeBuffer();
      Complete(hs, was, since, ReadClientCertificateVerify, ReadChangeCipherSpec, Ok);
      return Ok;
    }
    if !hs.ep.HasMessage() {
      hs.Waits(AwaitMessage, since);
      return AwaitMessage;
    }
    if hs.ep.inbox[0].typ != CertificateVerify {
      Unexpected(hs, ReadClientCertificateVerify);
      hs.Fails(was, since);
      return Error;
    }
    w := TakeVerify(hs);
  }

  method DoReadChangeCipherSpec(hs: Handshake) returns (w: Wait)
    requires hs.Ready() && hs.state == S(ReadChangeCipherSpec)
    modifies hs, hs.ep
    ensures hs.Stepped(w)
  {
    hide FromSide, Entries, Polite, Speaker, NoHvr, Endpoint.Valid, Endpoint.Settled, Endpoint.Ahead, Handshake.Ready,
         Handshake.Paused, Handshake.Orderly, Handshake.Moved, SS.Sent, SS.Received, SS.Keys, SS.Checked,
         Handshake.Misfit, Handshake.Justified, Weight;
    ghost var was, since := hs.p, hs.asked;
    Enter(hs, ReadChangeCipherSpec);
    Complete(hs, was, since, ReadChangeCipherSpec, ProcessChangeCipherSpec, AwaitCcs);
    return AwaitCcs;
  }

  method DoProcessChangeCipherSpec(hs: Handshake) returns (w: Wait)
    requires hs.Ready() && hs.state == S(ProcessChangeCipherSpec)
    modifies hs, hs.ep
    ensures hs.Stepped(w)
  {
    hide FromSide, Entries, Polite, Speaker, NoHvr, Endpoint.Valid, Endpoint.Settled, Endpoint.Ahead, Handshake.Ready,
         Handshake.Paused, Handshake.Orderly, Handshake.Moved, SS.Sent, SS.Received, SS.Keys, SS.Checked,
         Handshake.Misfit, Handshake.Justified, Weight;
    ghost var was, since := hs.p, hs.asked;
    Enter(hs, ProcessChangeCipherSpec);
    var derived := hs.Ask();
    if !derived {
      hs.Fails(was, since);
      return Error;
    }
    hs.ep.ReadKeys();
    Complete(hs, was, since, ProcessChangeCipherSpec, ReadNextProto, Ok);
    return Ok;
  }

  method DoReadNextProto(hs: Handshake) returns (w: Wait)
    requires hs.Ready() && hs.state == S(ReadNextProto)
    modifies hs, hs.ep
    ensures hs.Stepped(w)
  {
    hide FromSide, Entries, Polite, Speaker, NoHvr, Endpoint.Valid, Endpoint.Settled, Endpoint.Ahead, Handshake.Ready,
         Handshake.Paused, Handshake.Orderly, Handshake.Moved, SS.Sent, SS.Received, SS.Keys, SS.Checked,
         Handshake.Misfit, Handshake.Justified, Weight;
    ghost var was, since := hs.p, hs.asked;
    Enter(hs, ReadNextProto);
    if !hs.p.exts.nextProto {
      Complete(hs, was, since, ReadNextProto, ReadChannelId, Ok);
      return Ok;
    }
    if !hs.ep.HasMessage() {
      hs.Waits(AwaitMessage, since);
      return AwaitMessage;
    }
    if hs.ep.inbox[0].typ != NextProto {
      Unexpected(hs, ReadNextProto);
      hs.Fails(was, since);
      return Error;
    }
    var accepted := hs.Ask();
    hs.ep.Take(accepted);
    if !accepted {
      hs.Fails(was, since);
      return Error;
    }
    Complete(hs, was, since, ReadNextProto, ReadChannelId, Ok);
    return Ok;
  }

  method DoReadChannelId(hs: Handshake) returns (w: Wait)
    requires hs.Ready() && hs.state == S(ReadChannelId)
    modifies hs, hs.ep
    ensures hs.Stepped(w)
  {
    hide FromSide, Entries, Polite, Speaker, NoHvr, Endpoint.Valid, Endpoint.Settled, Endpoint.Ahead, Handshake.Ready,
         Handshake.Paused, Handshake.Orderly, Handshake.Moved, SS.Sent, SS.Received, SS.Keys, SS.Checked,
         Handshake.Misfit, Handshake.Justified, Weight;
    ghost var was, since := hs.p, hs.asked;
    Enter(hs, ReadChannelId);
    if !hs.p.exts.channelId {
      Complete(hs, was, since, ReadChannelId, ReadClientFinished, Ok);
      return Ok;
    }
    if !hs.ep.HasMessage() {
      hs.Waits(AwaitMessage, since);
      return AwaitMessage;
    }
    if hs.ep.inbox[0].typ != ChannelId {
      Unexpected(hs, ReadChannelId);
      hs.Fails(was, since);
      return Error;
    }
    var accepted := hs.Ask();
    hs.ep.Take(accepted);
    if !accepted {
      hs.Fails(was, since);
      return Error;
    }
    Complete(hs, was, since, ReadChannelId, ReadClientFinished, Ok);
    return Ok;
  }

  method TakeFinished(hs: Handshake) returns (w: Wait)
    requires hs.Ready() && hs.state == S(ReadClientFinished)
    modifies hs, hs.ep
    ensures hs.Stepped(w) && (w == Ok ==> hs.state == H.Successor(S(ReadClientFinished), hs.p))
  {
    hide FromSide, Entries, Polite, Speaker, NoHvr, Endpoint.Valid, Endpoint.Settled, Endpoint.Ahead, Handshake.Ready,
         Handshake.Paused, Handshake.Orderly, Handshake.Moved, SS.Sent, SS.Received, SS.Keys, SS.Checked,
         Handshake.Misfit, Handshake.Justified, Weight;
    ghost var was, since := hs.p, hs.asked;
    Enter(hs, ReadClientFinished);
    if !hs.ep.HasMessage() {
      hs.Waits(AwaitMessage, since);
      return AwaitMessage;
    }
    w := hs.ep.GetFinished();
    if w != Ok {
      NotFinished(hs);
      hs.Fails(was, since);
      return Error;
    }
    Complete(hs, was, since, ReadClientFinished,
             if hs.p.hello.resumed then FinishServerHandshake else SendServerFinished, Ok);
    return Ok;
  }

  method DoReadClientFinished(hs: Handshake) returns (w: Wait)
    requires hs.Ready() && hs.state == S(ReadClientFinished)
    modifies hs, hs.ep
    ensures hs.Stepped(w)
  {
    hide FromSide, Entries, Polite, Speaker, NoHvr, Endpoint.Valid, Endpoint.Settled, Endpoint.Ahead, Handshake.Ready,
         Handshake.Paused, Handshake.Orderly, Handshake.Moved, SS.Sent, SS.Received, SS.Keys, SS.Checked,
         Handshake.Misfit;
    ghost var was, since := hs.p, hs.asked;
    w := TakeFinished(hs);
    if w == Ok {
      var recorded := hs.Ask();
      if !recorded {
        hs.FailsAfter(S(ReadClientFinished), was, since);
        w := Error;
      }
    }
  }

  /** The last flight of a server: the ticket still goes out under the old keys. */
  method SendUnderKeys(hs: Handshake, ticket: seq<byte>) returns (ok: bool)
    requires hs.ep.Valid() && hs.ep.side == Server && hs.ep.Settled() && !hs.ep.digestFailed && hs.ep.hash.Some?
    requires Speaker(hs.ep.hashed) == Server
    modifies hs`asked, hs.ep
    ensures hs.ep.Valid() && !hs.ep.digestFailed && hs.ep.hash.Some? && hs.Evolves()
    ensures hs.asked > old(hs.asked) && (ok <==> !hs.Refused(old(hs.asked)))
    ensures hs.ep.buffer.Some? == old(hs.ep.buffer.Some?) && hs.ep.got == old(hs.ep.got)
    ensures ok ==> hs.ep.Settled() && Speaker(hs.ep.hashed) == Client && hs.ep.keys == old(hs.ep.keys) + SENT
    ensures ok ==> hs.ep.sent == Then(old(hs.ep.sent), hs.p.exts.ticketExpected, NewSessionTicket) + [Finished]
  {
    hide FromSide, Entries, Polite, Speaker, NoHvr, Endpoint.Valid, Endpoint.Settled, Endpoint.Ahead;
    if hs.p.exts.ticketExpected {
      hs.ep.Add(NewSessionTicket, ticket);
    }
    ok := hs.Ask();  // whether the keys can be derived
    hs.ep.AddCcs(ok);
    if !ok {
      return;
    }
    hs.ep.SendFinished();
  }

  method DoSendServerFinished(hs: Handshake) returns (w: Wait)
    requires hs.Ready() && hs.state == S(SendServerFinished)
    modifies hs, hs.ep
    ensures hs.Stepped(w)
  {
    hide FromSide, Entries, Polite, Speaker, NoHvr, Endpoint.Valid, Endpoint.Settled, Endpoint.Ahead, Handshake.Ready,
         Handshake.Paused, Handshake.Orderly, Handshake.Moved, SS.Sent, SS.Received, SS.Keys, SS.Checked,
         Handshake.Misfit, Handshake.Justified, Weight;
    ghost var was, since := hs.p, hs.asked;
    Enter(hs, SendServerFinished);
    var ticket: seq<byte> := *;
    var ok := hs.Ask();
    if !ok {
      hs.Fails(was, since);
      return Error;
    }
    var sent := SendUnderKeys(hs, ticket);
    if !sent {
      hs.Fails(was, since);
      return Error;
    }
    Complete(hs, was, since, SendServerFinished,
             if hs.p.hello.resumed then ReadChangeCipherSpec else FinishServerHandshake, Flush);
    return Flush;
  }

  method DoFinishServerHandshake(hs: Handshake) returns (w: Wait)
    requires hs.Ready() && hs.state == S(FinishServerHandshake)
    modifies hs, hs.ep
    ensures hs.Stepped(w)
  {
    hide FromSide, Entries, Polite, Speaker, NoHvr, Endpoint.Valid, Endpoint.Settled, Endpoint.Ahead, Handshake.Ready,
         Handshake.Paused, Handshake.Orderly, Handshake.Moved, SS.Sent, SS.Received, SS.Keys, SS.Checked,
         Handshake.Misfit, Handshake.Justified, Weight;
    ghost var was, since := hs.p, hs.asked;
    Enter(hs, FinishServerHandshake);
    Complete(hs, was, since, FinishServerHandshake, Done, Ok);
    return Ok;
  }

  /** One turn of the loop of ssl_server_handshake. */
  method DoState(hs: Handshake) returns (w: Wait)
    requires hs.Ready() && hs.state.S? && hs.state != S(Done)
    modifies hs, hs.ep
    ensures hs.Stepped(w)
  {
    hide *;
    match hs.state.s
    case StartAccept => w := DoStartAccept(hs);
    case ReadClientHello => w := DoReadClientHello(hs);
    case SelectCertificate => w := DoSelectCertificate(hs);
    case SelectParameters => w := DoSelectParameters(hs);
    case SendServerHello => w := DoSendServerHello(hs);
    case SendServerCertificate => w := DoSendServerCertificate(hs);
    case SendServerKeyExchange => w := DoSendServerKeyExchange(hs);
    case SendServerHelloDone => w := DoSendServerHelloDone(hs);
    case ReadClientCertificate => w := DoReadClientCertificate(hs);
    case VerifyClientCertificate => w := DoVerifyClientCertificate(hs);
    case ReadClientKeyExchange => w := DoReadClientKeyExchange(hs);
    case ReadClientCertificateVerify => w := DoReadClientCertificateVerify(hs);
    case ReadChangeCipherSpec => w := DoReadChangeCipherSpec(hs);
    case ProcessChangeCipherSpec => w := DoProcessChangeCipherSpec(hs);
    case ReadNextProto => w := DoReadNextProto(hs);
    case ReadChannelId => w := DoReadChannelId(hs);
    case ReadClientFinished => w := DoReadClientFinished(hs);
    case SendServerFinished => w := DoSendServerFinished(hs);
    case FinishServerHandshake => w := DoFinishServerHandshake(hs);
  }

  /** ssl_server_handshake: steps until one cannot go on. */
  method Run(hs: Handshake) returns (w: Wait)
    requires hs.Ready() && hs.state.S?
    modifies hs, hs.ep
    ensures hs.Ran(w)
  {
    hide FromSide, Entries, Polite, InOrder, AllBelow, Endpoint.Valid, Endpoint.Settled, NoHvr, H.Sent, H.Received,
         H.Keys, H.Rank, H.Successor, Handshake.Fits, Handshake.Orderly;
    ghost var first := true;
    while hs.state != S(Done)
      invariant hs.Ready() && hs.state.S? && hs.Evolves() && hs.asked >= old(hs.asked)
      invariant first ==> hs.state == old(hs.state) && hs.p == old(hs.p) && hs.ep.inbox == old(hs.ep.inbox)
      invariant !first ==> H.Rank(hs.state, hs.p.hello.resumed) > old(H.Rank(hs.state, hs.p.hello.resumed))
      decreases 19 - H.Rank(hs.state, hs.p.hello.resumed)
    {
      w := DoState(hs);
      if w != Ok {
        return;
      }
      first := false;
    }
    return Ok;
  }

  /** A server that is done consumed one ChangeCipherSpec and switched its read keys before it verified one Finished,
      switched its write keys before it sent one Finished, accepted the client's certificate and its CertificateVerify
      if it had parsed a client's key, and completed no state twice. */
  lemma ServerDone(hs: Handshake)
    requires hs.Paused(hs.wait) && hs.state == S(Done)
    ensures hs.ep.keys == if hs.p.hello.resumed then SENT + GOT else GOT + SENT
    ensures hs.p.auth.peerKey ==>
              hs.p.auth.chainVerified && hs.p.auth.verified && CertificateVerify in hs.ep.got
    ensures forall i, j | 0 <= i < j < |hs.completed| :: hs.completed[i] != hs.completed[j]
    ensures hs.ep.Settled() && hs.ep.sent == SS.Sent(Done, hs.p) && hs.ep.got == SS.Received(Done, hs.p)
    ensures Ends(hs.ep.sent) && Ends(hs.ep.got) && hs.ep.buffer.None?
  {
    hide Endpoint.Valid, Endpoint.Settled, Ends;
    SS.DoneEnds(hs.p);
    forall i, j | 0 <= i < j < |hs.completed| ensures hs.completed[i] != hs.completed[j] {
      assert H.Rank(hs.completed[i], hs.p.hello.resumed) < H.Rank(hs.completed[j], hs.p.hello.resumed);
    }
  }
}
