/** What two drivers have decided agrees exactly if what each has sent is what the other has received. */
module HsAgreement {
  import opened HsTranscript
  import opened HsStages
  import CS = HsClientStages
  import SS = HsServerStages

  /** A client's and a server's view of the same handshake. */
  predicate Agree(client: Params, server: Params) {
    && client.hello.resumed == server.hello.resumed
    && client.seen.gotTicket == server.exts.ticketExpected
    && client.exts.nextProto == server.exts.nextProto && client.exts.channelId == server.exts.channelId
    && (!client.hello.resumed ==> AgreeInFull(client, server))
  }

  predicate AgreeInFull(client: Params, server: Params) {
    && client.hello.usesCert == server.hello.usesCert
    && client.seen.gotStatus == (server.hello.usesCert && server.exts.statusExpected)
    && client.seen.gotSke == server.seen.hasParams
    && client.auth.certRequest == server.auth.certRequest
    && (client.auth.certRequest && client.auth.hasCert <==> server.auth.peerKey)
  }

  /** What each end's lists of messages come to, once both are done. */
  predicate SameLists(client: Params, server: Params) {
    && CS.Received(CS.Done, client) == SS.Sent(SS.Done, server)
    && CS.Sent(CS.Done, client) == SS.Received(SS.Done, server)
  }

  lemma InThen(ts: seq<MsgType>, b: bool, t: MsgType, x: MsgType)
    ensures x in Then(ts, b, t) <==> x in ts || (b && x == t)
    ensures x in ts + [t] <==> x in ts || x == t
  {
    if x in ts {
      var i :| 0 <= i < |ts| && ts[i] == x;
      assert (ts + [t])[i] == x;
    }
    assert (ts + [t])[|ts|] == t;
  }

  lemma ClientReceived(p: Params, x: MsgType)
    ensures x in CS.Received(CS.Done, p) <==>
              || x == ServerHello || x == Finished || (p.seen.gotTicket && x == NewSessionTicket)
              || (!p.hello.resumed && (
                    || x == ServerHelloDone || (p.hello.usesCert && x == Certificate)
                    || (p.seen.gotStatus && x == CertificateStatus) || (p.seen.gotSke && x == ServerKeyExchange)
                    || (p.auth.certRequest && x == CertificateRequest)))
  {
    hide Then;
    InThen([ServerHello], p.hello.usesCert, Certificate, x);
    InThen(CS.GotCertificate(p), p.seen.gotStatus, CertificateStatus, x);
    InThen(CS.GotStatus(p), p.seen.gotSke, ServerKeyExchange, x);
    InThen(CS.GotExchange(p), p.auth.certRequest, CertificateRequest, x);
    InThen(CS.GotRequest(p), true, ServerHelloDone, x);
    InThen(CS.GotBefore(p), p.seen.gotTicket, NewSessionTicket, x);
    InThen(CS.GotTicket(p), true, Finished, x);
  }

  lemma ServerSent(p: Params, x: MsgType)
    ensures x in SS.Sent(SS.Done, p) <==>
              || x == ServerHello || x == Finished || (p.exts.ticketExpected && x == NewSessionTicket)
              || (!p.hello.resumed && (
                    || x == ServerHelloDone || (p.hello.usesCert && x == Certificate)
                    || (p.hello.usesCert && p.exts.statusExpected && x == CertificateStatus)
                    || (p.seen.hasParams && x == ServerKeyExchange)
                    || (p.auth.certRequest && x == CertificateRequest)))
  {
    hide Then;
    InThen([ServerHello], p.hello.usesCert, Certificate, x);
    InThen(Then([ServerHello], p.hello.usesCert, Certificate), p.hello.usesCert && p.exts.statusExpected,
           CertificateStatus, x);
    InThen(SS.SentCertificate(p), p.seen.hasParams, ServerKeyExchange, x);
    InThen(SS.SentExchange(p), p.auth.certRequest, CertificateRequest, x);
    InThen(Then(SS.SentExchange(p), p.auth.certRequest, CertificateRequest), true, ServerHelloDone, x);
    InThen(SS.SentBefore(p), p.exts.ticketExpected, NewSessionTicket, x);
    InThen(Then(SS.SentBefore(p), p.exts.ticketExpected, NewSessionTicket), true, Finished, x);
  }

  lemma ClientSent(p: Params, x: MsgType)
    ensures x in CS.Sent(CS.Done, p) <==>
              || x == ClientHello || x == Finished
              || (p.exts.nextProto && x == NextProto) || (p.exts.channelId && x == ChannelId)
              || (!p.hello.resumed && (
                    || x == ClientKeyExchange || (p.auth.certRequest && x == Certificate)
                    || (p.auth.certRequest && p.auth.hasCert && x == CertificateVerify)))
  {
    hide Then;
    InThen([ClientHello], p.auth.certRequest, Certificate, x);
    InThen(CS.SentCertificate(p), true, ClientKeyExchange, x);
    InThen(CS.SentCertificate(p) + [ClientKeyExchange], p.auth.certRequest && p.auth.hasCert, CertificateVerify, x);
    InThen(CS.SentBefore(p), p.exts.nextProto, NextProto, x);
    InThen(Then(CS.SentBefore(p), p.exts.nextProto, NextProto), p.exts.channelId, ChannelId, x);
    InThen(Then(Then(CS.SentBefore(p), p.exts.nextProto, NextProto), p.exts.channelId, ChannelId), true, Finished, x);
  }

  lemma ServerReceived(p: Params, x: MsgType)
    ensures x in SS.Received(SS.Done, p) <==>
              || x == ClientHello || x == Finished
              || (p.exts.nextProto && x == NextProto) || (p.exts.channelId && x == ChannelId)
              || (!p.hello.resumed && (
                    || x == ClientKeyExchange || (p.auth.certRequest && x == Certificate)
                    || (p.auth.peerKey && x == CertificateVerify)))
  {
    hide Then;
    InThen([ClientHello], p.auth.certRequest, Certificate, x);
    InThen(SS.GotCertificate(p), true, ClientKeyExchange, x);
    InThen(SS.GotCertificate(p) + [ClientKeyExchange], p.auth.peerKey, CertificateVerify, x);
    InThen(SS.GotBefore(p), p.exts.nextProto, NextProto, x);
    InThen(SS.GotProto(p), p.exts.channelId, ChannelId, x);
    InThen(Then(SS.GotProto(p), p.exts.channelId, ChannelId), true, Finished, x);
  }

  /** Lists that are the same leave no room for a different view. */
  lemma SameListsAgree(p: Params, q: Params)
    requires SameLists(p, q)
    ensures Agree(p, q)
  {
    hide CS.Received, CS.Sent, SS.Received, SS.Sent;
    ReceivedAlike(p, q, ServerHelloDone);
    ReceivedAlike(p, q, Certificate);
    ReceivedAlike(p, q, CertificateStatus);
    ReceivedAlike(p, q, ServerKeyExchange);
    ReceivedAlike(p, q, CertificateRequest);
    ReceivedAlike(p, q, NewSessionTicket);
    SentAlike(p, q, NextProto);
    SentAlike(p, q, ChannelId);
    SentAlike(p, q, CertificateVerify);
  }

  lemma ReceivedAlike(p: Params, q: Params, x: MsgType)
    requires SameLists(p, q) && x != ServerHello && x != Finished
    ensures (p.seen.gotTicket && x == NewSessionTicket) || (!p.hello.resumed && (
                    || x == ServerHelloDone || (p.hello.usesCert && x == Certificate)
                    || (p.seen.gotStatus && x == CertificateStatus) || (p.seen.gotSke && x == ServerKeyExchange)
                    || (p.auth.certRequest && x == CertificateRequest)))
            <==> (q.exts.ticketExpected && x == NewSessionTicket) || (!q.hello.resumed && (
                    || x == ServerHelloDone || (q.hello.usesCert && x == Certificate)
                    || (q.hello.usesCert && q.exts.statusExpected && x == CertificateStatus)
                    || (q.seen.hasParams && x == ServerKeyExchange)
                    || (q.auth.certRequest && x == CertificateRequest)))
  {
    hide CS.Received, CS.Sent, SS.Received, SS.Sent;
    ClientReceived(p, x);
    ServerSent(q, x);
  }

  lemma SentAlike(p: Params, q: Params, x: MsgType)
    requires SameLists(p, q) && x in {NextProto, ChannelId, CertificateVerify}
    ensures (p.exts.nextProto && x == NextProto) || (p.exts.channelId && x == ChannelId)
            || (!p.hello.resumed && p.auth.certRequest && p.auth.hasCert && x == CertificateVerify)
            <==> (q.exts.nextProto && x == NextProto) || (q.exts.channelId && x == ChannelId)
                 || (!q.hello.resumed && q.auth.peerKey && x == CertificateVerify)
  {
    hide CS.Received, CS.Sent, SS.Received, SS.Sent;
    ClientSent(p, x);
    ServerReceived(q, x);
  }

  lemma AgreeingLists(p: Params, q: Params)
    requires Agree(p, q)
    ensures SameLists(p, q)
  {
    hide Then;
  }

  /** Every message one end sends is one the other takes in its place, if and only if the two have decided alike. */
  lemma AgreementIsSameLists(p: Params, q: Params)
    ensures SameLists(p, q) <==> Agree(p, q)
  {
    hide SameLists, Agree;
    if SameLists(p, q) {
      SameListsAgree(p, q);
    }
    if Agree(p, q) {
      AgreeingLists(p, q);
    }
  }
}
