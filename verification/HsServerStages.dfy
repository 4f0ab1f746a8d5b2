/** The server's states: the order they are passed in, and what has happened by the time each is entered. */
module HsServerStages {
  import opened Bytes
  import opened HsTranscript
  import opened HsStages

  datatype State =
    | StartAccept | ReadClientHello | SelectCertificate | SelectParameters | SendServerHello | SendServerCertificate
    | SendServerKeyExchange | SendServerHelloDone | ReadClientCertificate | VerifyClientCertificate
    | ReadClientKeyExchange | ReadClientCertificateVerify | ReadChangeCipherSpec | ProcessChangeCipherSpec
    | ReadNextProto | ReadChannelId | ReadClientFinished | SendServerFinished | FinishServerHandshake | Done

  /** The order in which a handshake passes its states: a resumed one sends the server's Finished before it reads. */
  function Rank(s: State, resumed: bool): (r: nat)
    ensures r <= 19
  {
    match s
    case StartAccept => 0
    case ReadClientHello => 1
    case SelectCertificate => 2
    case SelectParameters => 3
    case SendServerHello => 4
    case SendServerCertificate => 5
    case SendServerKeyExchange => 6
    case SendServerHelloDone => 7
    case ReadClientCertificate => 8
    case VerifyClientCertificate => 9
    case ReadClientKeyExchange => 10
    case ReadClientCertificateVerify => 11
    case ReadChangeCipherSpec => 12
    case ProcessChangeCipherSpec => 13
    case ReadNextProto => 14
    case ReadChannelId => 15
    case ReadClientFinished => 16
    case SendServerFinished => if resumed then 5 else 17
    case FinishServerHandshake => 18
    case Done => 19
  }

  /** The state that follows. */
  function Successor(s: State, p: Params): State {
    match s
    case StartAccept => ReadClientHello
    case ReadClientHello => SelectCertificate
    case SelectCertificate => SelectParameters
    case SelectParameters => SendServerHello
    case SendServerHello => if p.hello.resumed then SendServerFinished else SendServerCertificate
    case SendServerCertificate => SendServerKeyExchange
    case SendServerKeyExchange => SendServerHelloDone
    case SendServerHelloDone => ReadClientCertificate
    case ReadClientCertificate => VerifyClientCertificate
    case VerifyClientCertificate => ReadClientKeyExchange
    case ReadClientKeyExchange => ReadClientCertificateVerify
    case ReadClientCertificateVerify => ReadChangeCipherSpec
    case ReadChangeCipherSpec => ProcessChangeCipherSpec
    case ProcessChangeCipherSpec => ReadNextProto
    case ReadNextProto => ReadChannelId
    case ReadChannelId => ReadClientFinished
    case ReadClientFinished => if p.hello.resumed then FinishServerHandshake else SendServerFinished
    case SendServerFinished => if p.hello.resumed then ReadChangeCipherSpec else FinishServerHandshake
    case FinishServerHandshake => Done
    case Done => Done
  }

  // ----- What holds when a state is entered -----

  predicate BeforeParameters(s: State) {
    s.StartAccept? || s.ReadClientHello? || s.SelectCertificate? || s.SelectParameters?
  }

  /** The ClientHello has been looked at and is neither hashed nor released. */
  predicate HoldsHello(s: State) {
    s.SelectCertificate? || s.SelectParameters?
  }

  /** It is the server's turn. */
  predicate Speaks(s: State) {
    || s.SendServerHello?
    || s.SendServerCertificate?
    || s.SendServerKeyExchange?
    || s.SendServerHelloDone?
    || s.SendServerFinished?
  }

  /** Only the end of the handshake is left. */
  predicate Finishing(s: State) {
    s.FinishServerHandshake? || s.Done?
  }

  /** A message that a state can do nothing with is an error, and no other is. */
  predicate Expects(s: State, p: Params, typ: MsgType, body: seq<byte>) {
    match s
    case ReadClientHello => typ == ClientHello
    case ReadClientCertificate => p.auth.certRequest ==> typ == Certificate
    case ReadClientKeyExchange => typ == ClientKeyExchange
    case ReadClientCertificateVerify => p.auth.peerKey ==> typ == CertificateVerify
    case ReadNextProto => p.exts.nextProto ==> typ == NextProto
    case ReadChannelId => p.exts.channelId ==> typ == ChannelId
    case ReadClientFinished => typ == Finished
    case _ => true
  }

  /** The transcript's buffer is there exactly as long as a CertificateVerify may still be checked against it. */
  predicate Buffered(s: State, p: Params) {
    match s
    case StartAccept | ReadClientHello | SelectCertificate | SelectParameters => true
    case SendServerHello | SendServerCertificate | SendServerKeyExchange | SendServerHelloDone | ReadClientCertificate =>
      p.auth.certRequest
    case VerifyClientCertificate | ReadClientKeyExchange | ReadClientCertificateVerify => p.auth.peerKey
    case ReadChangeCipherSpec | ProcessChangeCipherSpec | ReadNextProto | ReadChannelId | ReadClientFinished
       | SendServerFinished | FinishServerHandshake | Done => false
  }

  /** A client key is there only if a certificate was asked for, and is used only after its chain and its
      CertificateVerify were accepted. */
  predicate Checked(s: State, p: Params) {
    && (p.auth.certRequest ==> !p.hello.resumed && p.hello.usesCert) && (p.auth.peerKey ==> p.auth.certRequest)
    && match s
       case StartAccept | ReadClientHello | SelectCertificate | SelectParameters =>
         !p.hello.resumed && !p.auth.certRequest
       case SendServerHello => !p.auth.peerKey
       case SendServerCertificate | SendServerKeyExchange | SendServerHelloDone | ReadClientCertificate =>
         !p.hello.resumed && !p.auth.peerKey
       case VerifyClientCertificate => !p.hello.resumed
       case ReadClientKeyExchange | ReadClientCertificateVerify =>
         !p.hello.resumed && (p.auth.peerKey ==> p.auth.chainVerified)
       case ReadChangeCipherSpec | ProcessChangeCipherSpec | ReadNextProto | ReadChannelId | ReadClientFinished
          | SendServerFinished | FinishServerHandshake | Done =>
         p.auth.peerKey ==> p.auth.chainVerified && p.auth.verified
  }

  /** What has happened to the keys. */
  function Keys(s: State, p: Params): seq<KeyEvent> {
    var before := if p.hello.resumed then SENT else [];
    match s
    case ReadChangeCipherSpec => before
    case ProcessChangeCipherSpec => before + [GotCcs]
    case ReadNextProto | ReadChannelId | ReadClientFinished => before + [GotCcs, ReadKeys]
    case SendServerFinished => if p.hello.resumed then [] else GOT
    case FinishServerHandshake | Done => if p.hello.resumed then SENT + GOT else GOT + SENT
    case StartAccept | ReadClientHello | SelectCertificate | SelectParameters | SendServerHello | SendServerCertificate
       | SendServerKeyExchange | SendServerHelloDone | ReadClientCertificate | VerifyClientCertificate
       | ReadClientKeyExchange | ReadClientCertificateVerify => []
  }

  function SentCertificate(p: Params): seq<MsgType> {
    Then(Then([ServerHello], p.hello.usesCert, Certificate),
         p.hello.usesCert && p.exts.statusExpected, CertificateStatus)
  }

  function SentExchange(p: Params): seq<MsgType> {
    Then(SentCertificate(p), p.seen.hasParams, ServerKeyExchange)
  }

  function SentHelloDone(p: Params): seq<MsgType> {
    Then(SentExchange(p), p.auth.certRequest, CertificateRequest) + [ServerHelloDone]
  }

  /** What has been sent before the last flight. */
  function SentBefore(p: Params): seq<MsgType> {
    if p.hello.resumed then [ServerHello] else SentHelloDone(p)
  }

  function SentAll(p: Params): seq<MsgType> {
    Then(SentBefore(p), p.exts.ticketExpected, NewSessionTicket) + [Finished]
  }

  /** What has been sent, once each. */
  function Sent(s: State, p: Params): seq<MsgType> {
    match s
    case StartAccept | ReadClientHello | SelectCertificate | SelectParameters | SendServerHello => []
    case SendServerCertificate => [ServerHello]
    case SendServerKeyExchange => SentCertificate(p)
    case SendServerHelloDone => SentExchange(p)
    case ReadClientCertificate | VerifyClientCertificate | ReadClientKeyExchange | ReadClientCertificateVerify
       | SendServerFinished => SentBefore(p)
    case ReadChangeCipherSpec | ProcessChangeCipherSpec | ReadNextProto | ReadChannelId | ReadClientFinished =>
      if p.hello.resumed then SentAll(p) else SentBefore(p)
    case FinishServerHandshake | Done => SentAll(p)
  }

  function GotCertificate(p: Params): seq<MsgType> {
    Then([ClientHello], p.auth.certRequest, Certificate)
  }

  function GotVerify(p: Params): seq<MsgType> {
    Then(GotCertificate(p) + [ClientKeyExchange], p.auth.peerKey, CertificateVerify)
  }

  /** What has been received before the client's keys change. */
  function GotBefore(p: Params): seq<MsgType> {
    if p.hello.resumed then [ClientHello] else GotVerify(p)
  }

  function GotProto(p: Params): seq<MsgType> {
    Then(GotBefore(p), p.exts.nextProto, NextProto)
  }

  function GotAll(p: Params): seq<MsgType> {
    Then(GotProto(p), p.exts.channelId, ChannelId) + [Finished]
  }

  /** What has been received and hashed, once each. */
  function Received(s: State, p: Params): seq<MsgType> {
    match s
    case StartAccept | ReadClientHello | SelectCertificate | SelectParameters => []
    case SendServerHello | SendServerCertificate | SendServerKeyExchange | SendServerHelloDone | ReadClientCertificate =>
      [ClientHello]
    case VerifyClientCertificate | ReadClientKeyExchange => GotCertificate(p)
    case ReadClientCertificateVerify => GotCertificate(p) + [ClientKeyExchange]
    case ReadChangeCipherSpec | ProcessChangeCipherSpec | ReadNextProto => GotBefore(p)
    case ReadChannelId => GotProto(p)
    case ReadClientFinished => Then(GotProto(p), p.exts.channelId, ChannelId)
    case SendServerFinished => if p.hello.resumed then [ClientHello] else GotAll(p)
    case FinishServerHandshake | Done => GotAll(p)
  }

  // ----- What a state does -----

  /** What a state may decide: everything else stays as it was. */
  predicate Decides(s: State, p: Params, q: Params) {
    match s
    case ReadClientHello => q == p.(exts := p.exts.(nextProto := q.exts.nextProto, channelId := q.exts.channelId))
    case SelectParameters =>
      && q == p.(hello := p.hello.(resumed := q.hello.resumed, usesCert := q.hello.usesCert),
                 exts := p.exts.(ticketExpected := q.exts.ticketExpected),
                 auth := p.auth.(certRequest := q.auth.certRequest))
      && (q.auth.certRequest ==> !q.hello.resumed && q.hello.usesCert)
    case SendServerHello => q == p.(exts := q.exts) && q.exts.ticketExpected == p.exts.ticketExpected
    case SendServerCertificate => q == p.(seen := p.seen.(hasParams := q.seen.hasParams))
    case ReadClientCertificate =>
      && q == p.(auth := p.auth.(peerKey := q.auth.peerKey))
      && (q.auth.peerKey ==> p.auth.certRequest)
    case VerifyClientCertificate =>
      && q == p.(auth := p.auth.(chainVerified := q.auth.chainVerified))
      && (p.auth.peerKey ==> q.auth.chainVerified)
    case ReadClientCertificateVerify =>
      && q == p.(auth := p.auth.(verified := q.auth.verified))
      && (p.auth.peerKey ==> q.auth.verified)
    case _ => q == p
  }

  /** The messages sent, behind those sent before. */
  function Added(s: State, p: Params, ts: seq<MsgType>): seq<MsgType> {
    match s
    case SendServerHello => ts + [ServerHello]
    case SendServerCertificate =>
      Then(Then(ts, p.hello.usesCert, Certificate), p.hello.usesCert && p.exts.statusExpected, CertificateStatus)
    case SendServerKeyExchange => Then(ts, p.seen.hasParams, ServerKeyExchange)
    case SendServerHelloDone => Then(ts, p.auth.certRequest, CertificateRequest) + [ServerHelloDone]
    case SendServerFinished => Then(ts, p.exts.ticketExpected, NewSessionTicket) + [Finished]
    case _ => ts
  }

  /** The messages received, behind those received before. */
  function Taken(s: State, p: Params, ts: seq<MsgType>): seq<MsgType> {
    match s
    case SelectParameters => ts + [ClientHello]
    case ReadClientCertificate => Then(ts, p.auth.certRequest, Certificate)
    case ReadClientKeyExchange => ts + [ClientKeyExchange]
    case ReadClientCertificateVerify => Then(ts, p.auth.peerKey, CertificateVerify)
    case ReadNextProto => Then(ts, p.exts.nextProto, NextProto)
    case ReadChannelId => Then(ts, p.exts.channelId, ChannelId)
    case ReadClientFinished => ts + [Finished]
    case _ => ts
  }

  function Keyed(s: State, ks: seq<KeyEvent>): seq<KeyEvent> {
    match s
    case SendServerFinished => ks + SENT
    case ProcessChangeCipherSpec => ks + [ReadKeys]
    case ReadClientFinished => ks + [GotFinished]
    case _ => ks
  }

  /** How a state is left: after a flight the driver flushes, and may not go on before that. */
  predicate Leaves(s: State, w: Wait) {
    match s
    case SendServerHelloDone | SendServerFinished => w == Flush
    case ReadChangeCipherSpec => w == AwaitCcs
    case _ => w == Ok
  }

  lemma LeavesFor(s: State, p: Params, w: Wait)
    requires s != Done && Leaves(s, w)
    ensures w in {Ok, Flush, EarlyReturn, AwaitCcs} && (Successor(s, p) == ProcessChangeCipherSpec <==> w == AwaitCcs)
    ensures Successor(s, p) == Done ==> w == Ok
  {
  }

  /** What only one or two states decide stays as it was in every other. */
  lemma Stays(s: State, p: Params, q: Params)
    requires Decides(s, p, q)
    ensures s != SelectParameters ==>
              && q.hello.resumed == p.hello.resumed && q.hello.usesCert == p.hello.usesCert
              && q.auth.certRequest == p.auth.certRequest && q.exts.ticketExpected == p.exts.ticketExpected
    ensures s != ReadClientHello && s != SendServerHello ==>
              q.exts.nextProto == p.exts.nextProto && q.exts.channelId == p.exts.channelId
    ensures s != SendServerHello ==> q.exts.statusExpected == p.exts.statusExpected
    ensures s != SendServerCertificate ==> q.seen.hasParams == p.seen.hasParams
    ensures s != ReadClientCertificate ==> q.auth.peerKey == p.auth.peerKey
  {
  }

  lemma PassesRank(s: State, p: Params, q: Params)
    requires s != Done && Checked(s, p) && Decides(s, p, q)
    ensures Rank(Successor(s, q), q.hello.resumed) > Rank(s, p.hello.resumed) == Rank(s, q.hello.resumed)
  {
    hide Decides;
    Stays(s, p, q);
  }

  lemma PassesChecks(s: State, p: Params, q: Params)
    requires s != Done && Checked(s, p) && Decides(s, p, q)
    ensures Checked(Successor(s, q), q)
  {
  }

  /** What a state sends, receives and does to the keys is what its successor expects. */
  lemma PassesKeys(s: State, p: Params, q: Params)
    requires s != Done && Checked(s, p) && Decides(s, p, q)
    ensures var t := Successor(s, q);
            Keys(t, q) == Keyed(s, Keys(s, p)) + if t == ProcessChangeCipherSpec then [GotCcs] else []
  {
    hide Decides;
    Stays(s, p, q);
  }

  lemma SentStays(s: State, p: Params, q: Params)
    requires Checked(s, p) && Decides(s, p, q)
    ensures Sent(s, p) == Sent(s, q)
  {
    hide Decides;
    Stays(s, p, q);
  }

  lemma PassesSent(s: State, p: Params, q: Params)
    requires s != Done && Checked(s, p) && Decides(s, p, q)
    ensures Sent(Successor(s, q), q) == Added(s, q, Sent(s, p))
  {
    hide Decides;
    Stays(s, p, q);
    SentStays(s, p, q);
  }

  lemma GotStays(s: State, p: Params, q: Params)
    requires Checked(s, p) && Decides(s, p, q)
    ensures Received(s, p) == Received(s, q)
  {
    hide Decides;
    Stays(s, p, q);
  }

  lemma PassesGot(s: State, p: Params, q: Params)
    requires s != Done && Checked(s, p) && Decides(s, p, q)
    ensures Received(Successor(s, q), q) == Taken(s, q, Received(s, p))
  {
    hide Decides;
    Stays(s, p, q);
    GotStays(s, p, q);
  }

  /** In the last state a Finished has been sent and received, last. */
  lemma DoneEnds(p: Params)
    ensures Ends(Sent(Done, p)) && Ends(Received(Done, p))
  {
    hide Ends;
    NoFinishedSent(p);
    EndsWith(Then(SentBefore(p), p.exts.ticketExpected, NewSessionTicket));
    NoFinishedGot(p);
    EndsWith(Then(GotProto(p), p.exts.channelId, ChannelId));
  }

  lemma NoFinishedSent(p: Params)
    ensures Finished !in Then(SentBefore(p), p.exts.ticketExpected, NewSessionTicket)
  {
    hide Then;
    StillNotFinished([ServerHello], p.hello.usesCert, Certificate);
    StillNotFinished(Then([ServerHello], p.hello.usesCert, Certificate),
                     p.hello.usesCert && p.exts.statusExpected, CertificateStatus);
    StillNotFinished(SentCertificate(p), p.seen.hasParams, ServerKeyExchange);
    StillNotFinished(SentExchange(p), p.auth.certRequest, CertificateRequest);
    StillNotFinished(SentBefore(p), p.exts.ticketExpected, NewSessionTicket);
  }

  lemma NoFinishedGot(p: Params)
    ensures Finished !in Then(GotProto(p), p.exts.channelId, ChannelId)
  {
    hide Then;
    StillNotFinished([ClientHello], p.auth.certRequest, Certificate);
    StillNotFinished(GotCertificate(p) + [ClientKeyExchange], p.auth.peerKey, CertificateVerify);
    StillNotFinished(GotBefore(p), p.exts.nextProto, NextProto);
    StillNotFinished(GotProto(p), p.exts.channelId, ChannelId);
  }
}
