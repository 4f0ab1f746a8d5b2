/** The client's states: the order they are passed in, and what has happened by the time each is entered. */
module HsClientStages {
  import opened Bytes
  import opened HsTranscript
  import opened HsStages

  datatype State =
    | StartConnect | EnterEarlyData | ReadHelloVerifyRequest | ReadServerHello | ReadServerCertificate
    | ReadCertificateStatus | VerifyServerCertificate | ReadServerKeyExchange | ReadCertificateRequest
    | ReadServerHelloDone | SendClientCertificate | SendClientKeyExchange | SendClientCertificateVerify
    | SendClientFinished | FinishFlight | ReadSessionTicket | ProcessChangeCipherSpec | ReadServerFinished
    | FinishClientHandshake | Done

  /** The order in which a handshake passes its states: a resumed one reads the server's Finished before it sends. */
  function Rank(s: State, resumed: bool): (r: nat)
    ensures r <= 19
  {
    match s
    case StartConnect => 0
    case EnterEarlyData => 1
    case ReadHelloVerifyRequest => 2
    case ReadServerHello => 3
    case ReadServerCertificate => 4
    case ReadCertificateStatus => 5
    case VerifyServerCertificate => 6
    case ReadServerKeyExchange => 7
    case ReadCertificateRequest => 8
    case ReadServerHelloDone => 9
    case SendClientCertificate => 10
    case SendClientKeyExchange => 11
    case SendClientCertificateVerify => 12
    case SendClientFinished => 13
    case FinishFlight => 14
    case ReadSessionTicket => if resumed then 4 else 15
    case ProcessChangeCipherSpec => if resumed then 5 else 16
    case ReadServerFinished => if resumed then 6 else 17
    case FinishClientHandshake => 18
    case Done => 19
  }

  /** The state that follows. */
  function Successor(s: State, p: Params): State {
    match s
    case StartConnect => EnterEarlyData
    case EnterEarlyData => if p.hello.dtls then ReadHelloVerifyRequest else ReadServerHello
    case ReadHelloVerifyRequest => ReadServerHello
    case ReadServerHello => if p.hello.resumed then ReadSessionTicket else ReadServerCertificate
    case ReadServerCertificate => ReadCertificateStatus
    case ReadCertificateStatus => VerifyServerCertificate
    case VerifyServerCertificate => ReadServerKeyExchange
    case ReadServerKeyExchange => ReadCertificateRequest
    case ReadCertificateRequest => ReadServerHelloDone
    case ReadServerHelloDone => SendClientCertificate
    case SendClientCertificate => SendClientKeyExchange
    case SendClientKeyExchange => SendClientCertificateVerify
    case SendClientCertificateVerify => SendClientFinished
    case SendClientFinished => FinishFlight
    case FinishFlight => if p.hello.resumed then FinishClientHandshake else ReadSessionTicket
    case ReadSessionTicket => ProcessChangeCipherSpec
    case ProcessChangeCipherSpec => ReadServerFinished
    case ReadServerFinished => if p.hello.resumed then SendClientFinished else FinishClientHandshake
    case FinishClientHandshake => Done
    case Done => Done
  }

  // ----- What holds when a state is entered -----

  predicate BeforeHello(s: State) {
    s.StartConnect? || s.EnterEarlyData? || s.ReadHelloVerifyRequest? || s.ReadServerHello?
  }

  /** It is the client's turn. */
  predicate Speaks(s: State) {
    || s.StartConnect?
    || s.SendClientCertificate?
    || s.SendClientKeyExchange?
    || s.SendClientCertificateVerify?
    || s.SendClientFinished?
  }

  /** Only the end of the handshake is left. */
  predicate Finishing(s: State) {
    s.FinishClientHandshake? || s.Done?
  }

  /** A message that a state can do nothing with is an error, and no other is. */
  predicate Expects(s: State, p: Params, typ: MsgType, body: seq<byte>) {
    match s
    case ReadServerHello => typ == ServerHello
    case ReadServerCertificate => p.hello.usesCert ==> typ == Certificate
    case ReadServerKeyExchange => p.hello.requiresSke ==> typ == ServerKeyExchange
    case ReadCertificateRequest => p.hello.usesCert ==> typ == CertificateRequest || typ == ServerHelloDone
    case ReadServerHelloDone => typ == ServerHelloDone && body == []
    case ReadSessionTicket => p.exts.ticketExpected ==> typ == NewSessionTicket
    case ReadServerFinished => typ == Finished
    case _ => true
  }

  /** The transcript's buffer is there exactly as long as a CertificateVerify may still have to sign it. */
  predicate Buffered(s: State, p: Params) {
    match s
    case StartConnect | EnterEarlyData | ReadHelloVerifyRequest | ReadServerHello => true
    case ReadServerCertificate | ReadCertificateStatus | VerifyServerCertificate | ReadServerKeyExchange
       | ReadCertificateRequest => p.hello.usesCert
    case ReadServerHelloDone | SendClientCertificate => p.auth.certRequest
    case SendClientKeyExchange | SendClientCertificateVerify => p.auth.certRequest && p.auth.hasCert
    case SendClientFinished | FinishFlight | ReadSessionTicket | ProcessChangeCipherSpec | ReadServerFinished
       | FinishClientHandshake | Done => false
  }

  predicate CertChecked(p: Params) {
    p.hello.usesCert ==> p.seen.serverVerified
  }

  predicate SkeChecked(p: Params) {
    p.hello.requiresSke ==> p.seen.gotSke
  }

  /** A certificate that was used has been verified, and a key exchange message that was required has come. */
  predicate Checked(s: State, p: Params) {
    && (p.auth.certRequest ==> !p.hello.resumed && p.hello.usesCert)
    && match s
       case StartConnect | EnterEarlyData | ReadHelloVerifyRequest | ReadServerHello | ReadServerCertificate
          | ReadCertificateStatus | VerifyServerCertificate => !p.hello.resumed && !p.auth.certRequest
       case ReadServerKeyExchange => !p.hello.resumed && !p.auth.certRequest && CertChecked(p)
       case ReadCertificateRequest => !p.hello.resumed && !p.auth.certRequest && CertChecked(p) && SkeChecked(p)
       case ReadServerHelloDone | SendClientCertificate | SendClientKeyExchange | SendClientCertificateVerify =>
         !p.hello.resumed && CertChecked(p) && SkeChecked(p)
       case SendClientFinished | FinishFlight | ReadSessionTicket | ProcessChangeCipherSpec | ReadServerFinished
          | FinishClientHandshake | Done => p.hello.resumed || (CertChecked(p) && SkeChecked(p))
  }

  /** What has happened to the keys. */
  function Keys(s: State, p: Params): seq<KeyEvent> {
    match s
    case SendClientFinished => if p.hello.resumed then GOT else []
    case FinishFlight => if p.hello.resumed then GOT + SENT else SENT
    case ReadSessionTicket => if p.hello.resumed then [] else SENT
    case ProcessChangeCipherSpec => if p.hello.resumed then [GotCcs] else SENT + [GotCcs]
    case ReadServerFinished => if p.hello.resumed then [GotCcs, ReadKeys] else SENT + [GotCcs, ReadKeys]
    case FinishClientHandshake | Done => if p.hello.resumed then GOT + SENT else SENT + GOT
    case StartConnect | EnterEarlyData | ReadHelloVerifyRequest | ReadServerHello | ReadServerCertificate
       | ReadCertificateStatus | VerifyServerCertificate | ReadServerKeyExchange | ReadCertificateRequest
       | ReadServerHelloDone | SendClientCertificate | SendClientKeyExchange | SendClientCertificateVerify => []
  }

  function SentCertificate(p: Params): seq<MsgType> {
    Then([ClientHello], p.auth.certRequest, Certificate)
  }

  function SentVerify(p: Params): seq<MsgType> {
    Then(SentCertificate(p) + [ClientKeyExchange], p.auth.certRequest && p.auth.hasCert, CertificateVerify)
  }

  /** What has been sent before the keys change. */
  function SentBefore(p: Params): seq<MsgType> {
    if p.hello.resumed then [ClientHello] else SentVerify(p)
  }

  function SentAll(p: Params): seq<MsgType> {
    Then(Then(SentBefore(p), p.exts.nextProto, NextProto), p.exts.channelId, ChannelId) + [Finished]
  }

  /** What has been sent, once each. */
  function Sent(s: State, p: Params): seq<MsgType> {
    match s
    case StartConnect => []
    case EnterEarlyData | ReadHelloVerifyRequest | ReadServerHello | ReadServerCertificate | ReadCertificateStatus
       | VerifyServerCertificate | ReadServerKeyExchange | ReadCertificateRequest | ReadServerHelloDone
       | SendClientCertificate => [ClientHello]
    case SendClientKeyExchange => SentCertificate(p)
    case SendClientCertificateVerify => SentCertificate(p) + [ClientKeyExchange]
    case SendClientFinished => SentBefore(p)
    case ReadSessionTicket | ProcessChangeCipherSpec | ReadServerFinished =>
      if p.hello.resumed then [ClientHello] else SentAll(p)
    case FinishFlight | FinishClientHandshake | Done => SentAll(p)
  }

  function GotCertificate(p: Params): seq<MsgType> {
    Then([ServerHello], p.hello.usesCert, Certificate)
  }

  function GotStatus(p: Params): seq<MsgType> {
    Then(GotCertificate(p), p.seen.gotStatus, CertificateStatus)
  }

  function GotExchange(p: Params): seq<MsgType> {
    Then(GotStatus(p), p.seen.gotSke, ServerKeyExchange)
  }

  function GotRequest(p: Params): seq<MsgType> {
    Then(GotExchange(p), p.auth.certRequest, CertificateRequest)
  }

  /** What has been received before the ticket. */
  function GotBefore(p: Params): seq<MsgType> {
    if p.hello.resumed then [ServerHello] else GotRequest(p) + [ServerHelloDone]
  }

  function GotTicket(p: Params): seq<MsgType> {
    Then(GotBefore(p), p.seen.gotTicket, NewSessionTicket)
  }

  /** What has been received and hashed, once each. */
  function Received(s: State, p: Params): seq<MsgType> {
    match s
    case StartConnect | EnterEarlyData | ReadHelloVerifyRequest | ReadServerHello => []
    case ReadServerCertificate => [ServerHello]
    case ReadCertificateStatus => GotCertificate(p)
    case VerifyServerCertificate | ReadServerKeyExchange => GotStatus(p)
    case ReadCertificateRequest => GotExchange(p)
    case ReadServerHelloDone => GotRequest(p)
    case SendClientCertificate | SendClientKeyExchange | SendClientCertificateVerify => GotBefore(p)
    case ReadSessionTicket => GotBefore(p)
    case ProcessChangeCipherSpec | ReadServerFinished => GotTicket(p)
    case SendClientFinished | FinishFlight => if p.hello.resumed then GotTicket(p) + [Finished] else GotBefore(p)
    case FinishClientHandshake | Done => GotTicket(p) + [Finished]
  }

  // ----- What a state does -----

  /** What a state may decide: everything else stays as it was. */
  predicate Decides(s: State, p: Params, q: Params) {
    match s
    case ReadServerHello => q == p.(hello := q.hello, exts := q.exts) && q.hello.dtls == p.hello.dtls
    case ReadCertificateStatus => q == p.(seen := p.seen.(gotStatus := q.seen.gotStatus))
    case VerifyServerCertificate =>
      && q == p.(seen := p.seen.(serverVerified := q.seen.serverVerified))
      && (p.hello.usesCert ==> q.seen.serverVerified)
    case ReadServerKeyExchange =>
      && q == p.(seen := p.seen.(gotSke := q.seen.gotSke))
      && (p.hello.requiresSke ==> q.seen.gotSke)
    case ReadCertificateRequest =>
      && q == p.(auth := p.auth.(certRequest := q.auth.certRequest))
      && (q.auth.certRequest ==> p.hello.usesCert)
    case SendClientCertificate => q == p.(auth := p.auth.(hasCert := q.auth.hasCert))
    case ReadSessionTicket =>
      q == p.(seen := p.seen.(gotTicket := q.seen.gotTicket),
              exts := p.exts.(ticketExpected := q.exts.ticketExpected))
    case _ => q == p
  }

  /** The messages sent, behind those sent before. */
  function Added(s: State, p: Params, ts: seq<MsgType>): seq<MsgType> {
    match s
    case StartConnect => ts + [ClientHello]
    case SendClientCertificate => Then(ts, p.auth.certRequest, Certificate)
    case SendClientKeyExchange => ts + [ClientKeyExchange]
    case SendClientCertificateVerify => Then(ts, p.auth.certRequest && p.auth.hasCert, CertificateVerify)
    case SendClientFinished => Then(Then(ts, p.exts.nextProto, NextProto), p.exts.channelId, ChannelId) + [Finished]
    case _ => ts
  }

  /** The messages received, behind those received before. */
  function Taken(s: State, p: Params, ts: seq<MsgType>): seq<MsgType> {
    match s
    case ReadServerHello => ts + [ServerHello]
    case ReadServerCertificate => Then(ts, p.hello.usesCert, Certificate)
    case ReadCertificateStatus => Then(ts, p.seen.gotStatus, CertificateStatus)
    case ReadServerKeyExchange => Then(ts, p.seen.gotSke, ServerKeyExchange)
    case ReadCertificateRequest => Then(ts, p.auth.certRequest, CertificateRequest)
    case ReadServerHelloDone => ts + [ServerHelloDone]
    case ReadSessionTicket => Then(ts, p.seen.gotTicket, NewSessionTicket)
    case ReadServerFinished => ts + [Finished]
    case _ => ts
  }

  function Keyed(s: State, ks: seq<KeyEvent>): seq<KeyEvent> {
    match s
    case SendClientFinished => ks + SENT
    case ProcessChangeCipherSpec => ks + [ReadKeys]
    case ReadServerFinished => ks + [GotFinished]
    case _ => ks
  }

  /** How a state is left: after a flight the driver flushes, and may not go on before that. */
  predicate Leaves(s: State, w: Wait) {
    match s
    case StartConnect | SendClientFinished => w == Flush
    case ReadHelloVerifyRequest => w == Ok || w == Flush
    case FinishFlight => w == Ok || w == EarlyReturn
    case ReadSessionTicket => w == AwaitCcs
    case _ => w == Ok
  }

  lemma LeavesFor(s: State, p: Params, w: Wait)
    requires s != Done && Leaves(s, w)
    ensures w in {Ok, Flush, EarlyReturn, AwaitCcs} && (Successor(s, p) == ProcessChangeCipherSpec <==> w == AwaitCcs)
    ensures Successor(s, p) == Done ==> w == Ok
  {
  }

  /** What only one state decides stays as it was in every other. */
  lemma Stays(s: State, p: Params, q: Params)
    requires Decides(s, p, q)
    ensures s != ReadServerHello ==> q.hello.resumed == p.hello.resumed && q.hello.usesCert == p.hello.usesCert
    ensures s != ReadCertificateStatus ==> q.seen.gotStatus == p.seen.gotStatus
    ensures s != ReadServerKeyExchange ==> q.seen.gotSke == p.seen.gotSke
    ensures s != ReadCertificateRequest ==> q.auth.certRequest == p.auth.certRequest
    ensures s != SendClientCertificate ==> q.auth.hasCert == p.auth.hasCert
    ensures s != ReadSessionTicket ==> q.seen.gotTicket == p.seen.gotTicket
  {
  }

  lemma PassesRank(s: State, p: Params, q: Params)
    requires s != Done && Checked(s, p) && Decides(s, p, q)
    ensures Rank(Successor(s, q), q.hello.resumed) > Rank(s, p.hello.resumed) == Rank(s, q.hello.resumed)
  {
    hide Decides;
    Stays(s, p, q);
  }

  lemma PassesChecks(s: State, p: Params, q: Params)
    requires s != Done && Checked(s, p) && Decides(s, p, q)
    ensures Checked(Successor(s, q), q)
  {
  }

  /** What a state sends, receives and does to the keys is what its successor expects. */
  lemma PassesKeys(s: State, p: Params, q: Params)
    requires s != Done && Checked(s, p) && Decides(s, p, q)
    ensures var t := Successor(s, q);
            Keys(t, q) == Keyed(s, Keys(s, p)) + if t == ProcessChangeCipherSpec then [GotCcs] else []
  {
    hide Decides;
    Stays(s, p, q);
  }

  lemma SentStays(s: State, p: Params, q: Params)
    requires Checked(s, p) && Decides(s, p, q)
    ensures Sent(s, p) == Sent(s, q)
  {
  }

  lemma PassesSent(s: State, p: Params, q: Params)
    requires s != Done && Checked(s, p) && Decides(s, p, q)
    ensures Sent(Successor(s, q), q) == Added(s, q, Sent(s, p))
  {
    hide Decides;
    Stays(s, p, q);
    SentStays(s, p, q);
  }

  lemma GotStays(s: State, p: Params, q: Params)
    requires Checked(s, p) && Decides(s, p, q)
    ensures Received(s, p) == Received(s, q)
  {
    hide Decides;
    Stays(s, p, q);
  }

  lemma PassesGot(s: State, p: Params, q: Params)
    requires s != Done && Checked(s, p) && Decides(s, p, q)
    ensures Received(Successor(s, q), q) == Taken(s, q, Received(s, p))
  {
    hide Decides;
    Stays(s, p, q);
    GotStays(s, p, q);
  }

  /** In the last state a Finished has been sent and received, last. */
  lemma DoneEnds(p: Params)
    ensures Ends(Sent(Done, p)) && Ends(Received(Done, p))
  {
    hide Ends;
    NoFinishedSent(p);
    EndsWith(Then(Then(SentBefore(p), p.exts.nextProto, NextProto), p.exts.channelId, ChannelId));
    NoFinishedGot(p);
    EndsWith(GotTicket(p));
  }

  lemma NoFinishedSent(p: Params)
    ensures Finished !in Then(Then(SentBefore(p), p.exts.nextProto, NextProto), p.exts.channelId, ChannelId)
  {
    hide Then;
    StillNotFinished([ClientHello], p.auth.certRequest, Certificate);
    StillNotFinished(SentCertificate(p) + [ClientKeyExchange], p.auth.certRequest && p.auth.hasCert, CertificateVerify);
    StillNotFinished(SentBefore(p), p.exts.nextProto, NextProto);
    StillNotFinished(Then(SentBefore(p), p.exts.nextProto, NextProto), p.exts.channelId, ChannelId);
  }

  lemma NoFinishedGot(p: Params)
    ensures Finished !in GotTicket(p)
  {
    hide Then;
    StillNotFinished([ServerHello], p.hello.usesCert, Certificate);
    StillNotFinished(GotCertificate(p), p.seen.gotStatus, CertificateStatus);
    StillNotFinished(GotStatus(p), p.seen.gotSke, ServerKeyExchange);
    StillNotFinished(GotExchange(p), p.auth.certRequest, CertificateRequest);
    StillNotFinished(GotBefore(p), p.seen.gotTicket, NewSessionTicket);
  }
}
