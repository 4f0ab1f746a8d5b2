/** What the handshake drivers of both sides share: what a handshake may decide, and what its keys go through. */
module HsStages {
  import opened HsTranscript

  datatype KeyEvent = SentCcs | WriteKeys | SentFinished | GotCcs | ReadKeys | GotFinished

  const SENT := [SentCcs, WriteKeys, SentFinished]
  const GOT := [GotCcs, ReadKeys, GotFinished]

  /** Why a driver stops (ssl_hs_wait_t). */
  datatype Wait =
    | Ok | Error | Flush | AwaitMessage | AwaitServerHello | AwaitCcs
    | X509Lookup | ChannelIdLookup | PrivateKeyOperation | PendingSession | CertificateSelection | CertificateVerifying
    | EarlyReturn

  /** The kind of handshake. */
  datatype Hello = Hello(
    dtls: bool,
    resumed: bool,       // an offered session is resumed
    usesCert: bool,      // ssl_cipher_uses_certificate_auth
    requiresSke: bool)   // ssl_cipher_requires_server_key_exchange

  datatype Extensions = Extensions(statusExpected: bool, ticketExpected: bool, nextProto: bool, channelId: bool)

  /** The client's certificate. */
  datatype ClientAuth = ClientAuth(
    certRequest: bool,
    hasCert: bool,        // the client has a certificate to send
    peerKey: bool,        // the server has parsed a client certificate's key
    chainVerified: bool,  // and accepted the certificate
    verified: bool)       // and a CertificateVerify by the key

  /** The server's optional messages, sent or received, and its certificate. */
  datatype Seen = Seen(
    hasParams: bool,       // the server's key exchange has parameters to send
    gotSke: bool,
    gotStatus: bool,
    gotTicket: bool,
    serverVerified: bool)  // the client has accepted the server's certificate

  /** What a handshake decides on its way; some of it only records what came and what was accepted. */
  datatype Params = Params(hello: Hello, exts: Extensions, auth: ClientAuth, seen: Seen)

  function Undecided(dtls: bool): Params {
    Params(Hello(dtls, false, false, false), Extensions(false, false, false, false),
           ClientAuth(false, false, false, false, false), Seen(false, false, false, false, false))
  }

  function Then(ts: seq<MsgType>, b: bool, t: MsgType): seq<MsgType> {
    if b then ts + [t] else ts
  }

  /** A Finished comes last if at all. */
  predicate FinishedLast(ts: seq<MsgType>) {
    forall i | 0 <= i < |ts| - 1 :: ts[i] != Finished
  }

  predicate Ends(ts: seq<MsgType>) {
    ts != [] && ts[|ts| - 1] == Finished && FinishedLast(ts)
  }

  lemma EndsWith(ts: seq<MsgType>)
    requires Finished !in ts
    ensures Ends(ts + [Finished])
  {
  }

  lemma StillNotFinished(ts: seq<MsgType>, b: bool, t: MsgType)
    requires Finished !in ts && t != Finished
    ensures Finished !in Then(ts, b, t)
  {
  }
}
