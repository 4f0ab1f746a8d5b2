/** An honest client and an honest server on reliable channels. */
module HsPair {
  import opened Bytes
  import opened HsStages
  import opened HsTranscript
  import opened HsEndpoint
  import opened HsHandshake
  import HsAgreement
  import HsClient
  import HsDriver
  import HsServer
  import CS = HsClientStages
  import SS = HsServerStages

  /** What one end has received is what the other has sent, so far. */
  ghost predicate Channel(from: Endpoint, to: Endpoint)
    reads from, to
  {
    to.consumed + to.inbox <= from.outbox
  }

  ghost predicate Unbroken(e: Endpoint)
    reads e
  {
    e.Valid() && e.inStart == e.outStart == 0
  }

  lemma NoHvrPrefix(a: seq<Item>, b: seq<Item>)
    requires a <= b && NoHvr(b)
    ensures NoHvr(a)
  {
    forall i | 0 <= i < |a| && a[i].Message? ensures a[i].typ != HelloVerifyRequest {
      assert a[i] == b[i];
    }
  }

  lemma HonestEnds(mine: Endpoint, yours: Endpoint)
    requires Unbroken(mine) && Unbroken(yours) && mine.side == Peer(yours.side)
    requires Channel(mine, yours) && Channel(yours, mine)
    ensures Honest(mine.hashed, yours.hashed, mine.side)
  {
    hide FromSide, Entries, Polite;
    EntriesPrefix(yours.consumed + yours.inbox, mine.outbox, mine.side);
    EntriesPrefix(mine.consumed + mine.inbox, yours.outbox, yours.side);
    assert mine.outbox[0..] == mine.outbox && yours.outbox[0..] == yours.outbox;
    assert (mine.consumed + mine.inbox)[0..] == mine.consumed + mine.inbox;
    assert (yours.consumed + yours.inbox)[0..] == yours.consumed + yours.inbox;
  }

  /** The transcript an end checks a Finished against is the one its peer computed it over: the check never fails. */
  lemma NeverRejected(mine: Endpoint, yours: Endpoint)
    requires Unbroken(mine) && Unbroken(yours) && mine.side == Peer(yours.side) && mine.mac == yours.mac
    requires Channel(mine, yours) && Channel(yours, mine)
    requires Comparable(mine.hashed, yours.hashed)
    ensures !mine.digestFailed
  {
    hide FromSide, Entries, Polite, Types;
    HonestEnds(mine, yours);
    var n := |mine.hashed| - 1;
    if mine.hashed != [] && mine.hashed[n].from == Peer(mine.side) && mine.hashed[n].typ == Finished {
      ReceivedWasSent(mine.hashed, yours.hashed, mine.side, n);
      assert yours.Vouched(yours.hashed, n);
      assert yours.hashed[n].body == yours.mac(yours.hashed[..n], yours.side);
    }
  }

  /** Two lists of one side's messages, one a prefix of the other and both ended by a Finished, are the same. */
  lemma EndedTogether(shorter: seq<Entry>, longer: seq<Entry>)
    requires shorter <= longer && Ends(Types(shorter)) && Ends(Types(longer))
    ensures shorter == longer
  {
    assert Types(longer)[|shorter| - 1] == Types(shorter)[|shorter| - 1];
  }

  /** Transcripts that are comparable and contain the same messages of each side are the same. */
  lemma SameTranscript(a: seq<Entry>, b: seq<Entry>)
    requires a <= b && FromSide(a, Client) == FromSide(b, Client) && FromSide(a, Server) == FromSide(b, Server)
    ensures a == b
  {
    hide FromSide;
    if |a| < |b| {
      var next := b[|a|];
      assert b[..|a| + 1] == a + [next];
      FromSideSnoc(a, next, next.from);
      FromSideTake(b, |a| + 1, next.from);
    }
  }

  datatype Event = ClientRuns | ServerRuns | ServerReceives | ClientReceives

  lemma PausedIsValid(hs: Handshake)
    requires hs.Paused(Ok)
    ensures hs.ep.Valid()
  {
    hide Endpoint.Valid, Endpoint.Settled, Handshake.Fits, Handshake.Orderly;
  }

  class Pair {
    const client: Handshake
    const server: Handshake
    var toServer: nat  // items the network has delivered
    var toClient: nat

    ghost predicate Valid()
      reads this, client, server, client.ep, server.ep
    {
      && client != server && client.ep != server.ep
      && client.ep.side == Client && server.ep.side == Server && client.ep.mac == server.ep.mac
      && Unbroken(client.ep) && Unbroken(server.ep)
      && Channel(client.ep, server.ep) && Channel(server.ep, client.ep)
      && toServer == |server.ep.consumed + server.ep.inbox| && toClient == |client.ep.consumed + client.ep.inbox|
      && Comparable(client.ep.hashed, server.ep.hashed)
      && (client.wait != Error ==> client.Paused(client.wait))
      && (server.wait != Error ==> server.Paused(server.wait))
    }

    /** Both ends start; `sign` is the client's key, the server accepts what `accepts` says, and each end has its own
        answers from outside. */
    constructor (mac: (seq<Entry>, Side) -> seq<byte>, sign: (seq<Entry>, nat) -> seq<byte>,
                 accepts: (seq<Entry>, seq<byte>) -> bool, clientAnswers: nat -> bool, serverAnswers: nat -> bool,
                 dtls: bool)
      ensures Valid() && fresh(client) && fresh(server) && fresh(client.ep) && fresh(server.ep)
      ensures client.ep.sign == sign && server.ep.accepts == accepts
      ensures client.answers == clientAnswers && server.answers == serverAnswers
    {
      hide FromSide, Entries, Polite, Speaker, Endpoint.Valid, Endpoint.Settled, Handshake.Paused;
      client := new Handshake(Client, mac, sign, (_, _) => false, clientAnswers, dtls);
      server := new Handshake(Server, mac, (_, _) => [], accepts, serverAnswers, dtls);
      toServer, toClient := 0, 0;
      new;
      PausedIsValid(client);
      PausedIsValid(server);
    }

    /** The client is driven until it has to wait. */
    method RunClient()
      requires Valid()
      modifies client, client.ep
      ensures Valid()
    {
      hide FromSide, Entries, Polite, Endpoint.Valid, NoHvr, Speaker, Comparable, Handshake.Paused;
      ghost var before := client.ep.hashed;
      HonestEnds(client.ep, server.ep);
      ServerSendsNoHvr(client.ep, server.ep);
      var _, _, _ := HsDriver.Run(client);
      HonestEnds(client.ep, server.ep);
      RunComparable(before, client.ep.hashed, server.ep.hashed, Client);
    }

    /** The server is driven until it has to wait. */
    method RunServer()
      requires Valid()
      modifies server, server.ep
      ensures Valid()
    {
      hide FromSide, Entries, Polite, Endpoint.Valid, NoHvr, Speaker, Comparable, Handshake.Paused;
      ghost var before := server.ep.hashed;
      HonestEnds(server.ep, client.ep);
      ComparableSymmetric(client.ep.hashed, before);
      var _, _, _ := HsDriver.Run(server);
      HonestEnds(server.ep, client.ep);
      RunComparable(before, server.ep.hashed, client.ep.hashed, Server);
      ComparableSymmetric(server.ep.hashed, client.ep.hashed);
    }

    /** The network delivers the next item the client has sent. */
    method ToServer()
      requires Valid() && toServer < |client.ep.outbox|
      modifies `toServer, server.ep`inbox
      ensures Valid()
    {
      hide FromSide, Entries, Polite, Endpoint.Valid, Endpoint.Settled, Speaker, Comparable, Handshake.Orderly, Rank,
           Keys, Sent, Received, Buffered, Hashing, Speaks, Finishing, NeedsCcs, IsDone;
      var x := client.ep.outbox[toServer];
      ghost var queue := server.ep.consumed + server.ep.inbox;
      server.ep.Arrive(x);
      assert server.ep.consumed + server.ep.inbox == queue + [x];
      toServer := toServer + 1;
    }

    /** The network delivers the next item the server has sent. */
    method ToClient()
      requires Valid() && toClient < |server.ep.outbox|
      modifies `toClient, client.ep`inbox
      ensures Valid()
    {
      hide FromSide, Entries, Polite, Endpoint.Valid, Endpoint.Settled, Speaker, Comparable, Handshake.Orderly, Rank,
           Keys, Sent, Received, Buffered, Hashing, Speaks, Finishing, NeedsCcs, IsDone;
      var x := server.ep.outbox[toClient];
      ghost var queue := client.ep.consumed + client.ep.inbox;
      client.ep.Arrive(x);
      assert client.ep.consumed + client.ep.inbox == queue + [x];
      toClient := toClient + 1;
    }

    /** Any schedule of runs and deliveries, with any number of waits and re-entries: neither end ever rejects the
        other's Finished. */
    method Converse(schedule: seq<Event>)
      requires Valid()
      modifies this, client, server, client.ep, server.ep
      ensures Valid() && !client.ep.digestFailed && !server.ep.digestFailed
      ensures BothFinished() ==>
                client.ep.hashed == server.ep.hashed && HsAgreement.Agree(client.p, server.p)
    {
      hide FromSide, Entries, Polite, Endpoint.Valid, Speaker, Comparable, Channel, Handshake.Paused;
      for i := 0 to |schedule|
        invariant Valid()
      {
        match schedule[i]
        case ClientRuns => RunClient();
        case ServerRuns => RunServer();
        case ServerReceives => if toServer < |client.ep.outbox| { ToServer(); }
        case ClientReceives => if toClient < |server.ep.outbox| { ToClient(); }
      }
      NeverRejected(client.ep, server.ep);
      ComparableSymmetric(client.ep.hashed, server.ep.hashed);
      NeverRejected(server.ep, client.ep);
      if BothFinished() {
        BothDone(this);
        BothAgree(this);
      }
    }

    ghost predicate BothFinished()
      reads client, server
    {
      client.wait == server.wait == Ok && client.state == C(CS.Done) && server.state == S(SS.Done)
    }
  }

  /** When an end takes its peer's Finished, or any other message, its transcript up to there is the one the peer had
      when it sent that message. */
  lemma CheckedTranscriptsEqual(p: Pair, i: nat)
    requires p.Valid()
    ensures i < |p.client.ep.hashed| && p.client.ep.hashed[i].from == Server ==>
              && i < |p.server.ep.hashed| && p.client.ep.hashed[..i + 1] == p.server.ep.hashed[..i + 1]
    ensures i < |p.server.ep.hashed| && p.server.ep.hashed[i].from == Client ==>
              && i < |p.client.ep.hashed| && p.server.ep.hashed[..i + 1] == p.client.ep.hashed[..i + 1]
  {
    hide FromSide, Entries, Polite, Endpoint.Valid, Speaker, Handshake.Paused;
    HonestEnds(p.client.ep, p.server.ep);
    HonestEnds(p.server.ep, p.client.ep);
    if i < |p.client.ep.hashed| && p.client.ep.hashed[i].from == Server {
      ReceivedWasSent(p.client.ep.hashed, p.server.ep.hashed, Client, i);
    }
    if i < |p.server.ep.hashed| && p.server.ep.hashed[i].from == Client {
      ReceivedWasSent(p.server.ep.hashed, p.client.ep.hashed, Server, i);
    }
  }

  /** The message an end looks at next is one its peer sent after the very transcript the end holds now. */
  lemma NextWasSent(mine: Endpoint, yours: Endpoint)
    requires Unbroken(mine) && Unbroken(yours) && mine.side == Peer(yours.side)
    requires Channel(mine, yours) && Channel(yours, mine) && Comparable(mine.hashed, yours.hashed)
    requires mine.Settled() && mine.HasMessage()
    ensures var n := |mine.hashed|;
            n < |yours.hashed| && yours.hashed[..n] == mine.hashed && yours.hashed[n] == mine.Head()
  {
    hide FromSide, Entries, Polite, Speaker, Endpoint.AllVouched, Types;
    HonestEnds(mine, yours);
    var e := mine.Head();
    FromSideSnoc(mine.hashed, e, mine.side);
    FromSideSnoc(mine.hashed, e, Peer(mine.side));
    PoliteSnoc(mine.hashed, e, mine.side);
    EntriesSnoc(mine.consumed, mine.inbox[0], Peer(mine.side));
    EntriesPrefix(mine.consumed + [mine.inbox[0]], yours.outbox, yours.side);
    assert mine.consumed[0..] == mine.consumed && yours.outbox[0..] == yours.outbox;
    StepComparable(mine.hashed, e, yours.hashed, mine.side);
    ReceivedWasSent(mine.hashed + [e], yours.hashed, mine.side, |mine.hashed|);
    assert (mine.hashed + [e])[..|mine.hashed|] == mine.hashed;
  }

  /** An honest client's CertificateVerify always passes, if the server accepts what the client's key signs. */
  lemma VerifyAccepted(p: Pair)
    requires p.Valid() && forall t, nonce :: p.server.ep.accepts(t, p.client.ep.sign(t, nonce))
    requires p.server.ep.Settled() && p.server.ep.HasMessage() && p.server.ep.inbox[0].typ == CertificateVerify
    ensures p.server.ep.accepts(p.server.ep.hashed, p.server.ep.inbox[0].body)
  {
    hide FromSide, Entries, Polite, Speaker, Handshake.Paused, Types;
    var c, s := p.client.ep, p.server.ep;
    ComparableSymmetric(c.hashed, s.hashed);
    NextWasSent(s, c);
    assert c.Vouched(c.hashed, |s.hashed|);
  }

  /** An end that waits for something its peer is to send. */
  ghost predicate Listening(hs: Handshake)
    reads hs`wait
  {
    hs.wait in {AwaitMessage, AwaitServerHello, AwaitCcs}
  }

  /** Everything that was sent has been taken. */
  ghost predicate Quiet(from: Endpoint, to: Endpoint)
    reads from, to
  {
    to.consumed == from.outbox
  }

  /** A driver that waits for its peer is in a state in which it is not its turn. */
  lemma ListensInTurn(hs: Handshake)
    requires hs.wait != Error && hs.Paused(hs.wait) && Listening(hs)
    ensures hs.ep.Settled() && Speaker(hs.ep.hashed) != hs.ep.side
  {
    hide Endpoint.Valid, Endpoint.Settled, Handshake.Orderly, FromSide, Sent, Received, Keys, Speaker, Buffered,
         Hashing, IsDone;
  }

  /** With nothing left to deliver or to take, both transcripts are the same. */
  lemma SettledAlike(mine: Endpoint, yours: Endpoint)
    requires Unbroken(mine) && Unbroken(yours) && mine.side == Peer(yours.side) && mine.Settled() && yours.Settled()
    requires Quiet(mine, yours) && Quiet(yours, mine) && Comparable(mine.hashed, yours.hashed)
    ensures mine.hashed == yours.hashed
  {
    hide FromSide, Entries, Polite, Types, Endpoint.AllVouched;
    assert mine.outbox[0..] == mine.outbox && yours.outbox[0..] == yours.outbox;
    assert mine.consumed[0..] == mine.consumed && yours.consumed[0..] == yours.consumed;
    if mine.hashed <= yours.hashed {
      SameTranscript(mine.hashed, yours.hashed);
    } else {
      SameTranscript(yours.hashed, mine.hashed);
    }
  }

  /** There is no deadlock: when everything sent has been delivered and taken, the two ends never both wait for
      each other. */
  lemma NoDeadlock(p: Pair)
    requires p.Valid() && Quiet(p.client.ep, p.server.ep) && Quiet(p.server.ep, p.client.ep)
    ensures !(Listening(p.client) && Listening(p.server))
  {
    hide FromSide, Entries, Polite, Endpoint.Valid, Endpoint.Settled, Handshake.Paused, Speaker;
    if Listening(p.client) && Listening(p.server) {
      ListensInTurn(p.client);
      ListensInTurn(p.server);
      SettledAlike(p.client.ep, p.server.ep);
    }
  }

  /** When both ends are done they hold the same transcript. */
  lemma BothDone(p: Pair)
    requires p.Valid() && p.BothFinished()
    ensures p.client.ep.hashed == p.server.ep.hashed
  {
    hide FromSide, Entries, Polite, Speaker, Types, Handshake.Paused;
    var (c, s) := (p.client.ep.hashed, p.server.ep.hashed);
    HsClient.ClientDone(p.client);
    HsServer.ServerDone(p.server);
    HonestEnds(p.client.ep, p.server.ep);
    EndedTogether(FromSide(s, Client), FromSide(c, Client));
    EndedTogether(FromSide(c, Server), FromSide(s, Server));
    if c <= s {
      SameTranscript(c, s);
    } else {
      SameTranscript(s, c);
    }
  }

  /** When both ends are done they have decided alike. */
  lemma BothAgree(p: Pair)
    requires p.Valid() && p.BothFinished()
    ensures HsAgreement.Agree(p.client.p, p.server.p)
  {
    hide FromSide, Entries, Polite, Speaker, Types, Handshake.Paused, HsAgreement.Agree, CS.Sent, CS.Received,
         SS.Sent, SS.Received;
    BothDone(p);
    HsClient.ClientDone(p.client);
    HsServer.ServerDone(p.server);
    HsAgreement.AgreementIsSameLists(p.client.p, p.server.p);
  }

  lemma ComparableSymmetric(a: seq<Entry>, b: seq<Entry>)
    requires Comparable(a, b)
    ensures Comparable(b, a)
  {
  }

  lemma ServerSendsNoHvr(client: Endpoint, server: Endpoint)
    requires Unbroken(server) && Channel(server, client)
    ensures NoHvr(client.consumed + client.inbox)
  {
    NoHvrPrefix(client.consumed + client.inbox, server.outbox);
  }
}
