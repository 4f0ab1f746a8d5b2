/** The handshake of either side (SSL_HANDSHAKE): its state, what it has decided, and the invariant every step keeps. */
module HsHandshake {
  import opened Bytes
  import opened HsStages
  import opened HsTranscript
  import opened HsEndpoint
  import CS = HsClientStages
  import SS = HsServerStages

  datatype State = C(c: CS.State) | S(s: SS.State)

  function Rank(st: State, resumed: bool): (r: nat)
    ensures r <= 19
  {
    match st
    case C(c) => CS.Rank(c, resumed)
    case S(s) => SS.Rank(s, resumed)
  }

  function Successor(st: State, p: Params): State {
    match st
    case C(c) => C(CS.Successor(c, p))
    case S(s) => S(SS.Successor(s, p))
  }

  function First(side: Side): State {
    if side == Client then C(CS.StartConnect) else S(SS.StartAccept)
  }

  lemma Begins(st: State, p: Params)
    requires (st == First(Client) || st == First(Server)) && !p.hello.resumed && !p.auth.certRequest && !p.auth.peerKey
    ensures Checked(st, p) && Sent(st, p) == [] && Received(st, p) == [] && Keys(st, p) == []
  {
  }

  function SideOf(st: State): Side {
    if st.C? then Client else Server
  }

  predicate IsDone(st: State) {
    st == C(CS.Done) || st == S(SS.Done)
  }

  /** The state entered once the peer's ChangeCipherSpec has arrived. */
  predicate NeedsCcs(st: State) {
    st == C(CS.ProcessChangeCipherSpec) || st == S(SS.ProcessChangeCipherSpec)
  }

  predicate Leaves(st: State, w: Wait) {
    match st
    case C(c) => CS.Leaves(c, w)
    case S(s) => SS.Leaves(s, w)
  }

  lemma LeavesFor(st: State, p: Params, w: Wait)
    requires !IsDone(st) && Leaves(st, w)
    ensures w in {Ok, Flush, EarlyReturn, AwaitCcs} && (NeedsCcs(Successor(st, p)) <==> w == AwaitCcs)
    ensures IsDone(Successor(st, p)) ==> w == Ok
  {
    hide CS.Leaves, SS.Leaves, CS.Successor, SS.Successor;
    match st
    case C(c) => CS.LeavesFor(c, p, w);
    case S(s) => SS.LeavesFor(s, p, w);
  }

  predicate Speaks(st: State) {
    match st
    case C(c) => CS.Speaks(c)
    case S(s) => SS.Speaks(s)
  }

  predicate Finishing(st: State) {
    match st
    case C(c) => CS.Finishing(c)
    case S(s) => SS.Finishing(s)
  }

  predicate Expects(st: State, p: Params, typ: MsgType, body: seq<byte>) {
    match st
    case C(c) => CS.Expects(c, p, typ, body)
    case S(s) => SS.Expects(s, p, typ, body)
  }

  predicate Buffered(st: State, p: Params) {
    match st
    case C(c) => CS.Buffered(c, p)
    case S(s) => SS.Buffered(s, p)
  }

  /** The running hash has been started, which needs the cipher. */
  predicate Hashing(st: State) {
    match st
    case C(c) => !CS.BeforeHello(c)
    case S(s) => !SS.BeforeParameters(s)
  }

  predicate HoldsHello(st: State) {
    st.S? && SS.HoldsHello(st.s)
  }

  predicate Unhashed(st: State) {
    st.S? && SS.BeforeParameters(st.s)
  }

  predicate Checked(st: State, p: Params) {
    match st
    case C(c) => CS.Checked(c, p)
    case S(s) => SS.Checked(s, p)
  }

  function Keys(st: State, p: Params): seq<KeyEvent> {
    match st
    case C(c) => CS.Keys(c, p)
    case S(s) => SS.Keys(s, p)
  }

  function Sent(st: State, p: Params): seq<MsgType> {
    match st
    case C(c) => CS.Sent(c, p)
    case S(s) => SS.Sent(s, p)
  }

  function Received(st: State, p: Params): seq<MsgType> {
    match st
    case C(c) => CS.Received(c, p)
    case S(s) => SS.Received(s, p)
  }

  predicate Decides(st: State, p: Params, q: Params) {
    match st
    case C(c) => CS.Decides(c, p, q)
    case S(s) => SS.Decides(s, p, q)
  }

  function Added(st: State, p: Params, ts: seq<MsgType>): seq<MsgType> {
    match st
    case C(c) => CS.Added(c, p, ts)
    case S(s) => SS.Added(s, p, ts)
  }

  function Taken(st: State, p: Params, ts: seq<MsgType>): seq<MsgType> {
    match st
    case C(c) => CS.Taken(c, p, ts)
    case S(s) => SS.Taken(s, p, ts)
  }

  function Keyed(st: State, ks: seq<KeyEvent>): seq<KeyEvent> {
    match st
    case C(c) => CS.Keyed(c, ks)
    case S(s) => SS.Keyed(s, ks)
  }

  /** What a state decides, sends, receives and does to the keys is what its successor expects. */
  lemma Passes(st: State, p: Params, q: Params)
    requires !IsDone(st) && Checked(st, p) && Decides(st, p, q)
    ensures var t := Successor(st, q);
            && Rank(t, q.hello.resumed) > Rank(st, p.hello.resumed) == Rank(st, q.hello.resumed)
            && SideOf(t) == SideOf(st) && Checked(t, q)
            && Keys(t, q) == (if NeedsCcs(t) then Keyed(st, Keys(st, p)) + [GotCcs] else Keyed(st, Keys(st, p)))
            && Sent(t, q) == Added(st, q, Sent(st, p))
            && Received(t, q) == Taken(st, q, Received(st, p))
  {
    hide CS.Checked, CS.Keys, CS.Sent, CS.Received, CS.Decides, CS.Added, CS.Taken, CS.Keyed, CS.Rank, CS.Successor,
         SS.Checked, SS.Keys, SS.Sent, SS.Received, SS.Decides, SS.Added, SS.Taken, SS.Keyed, SS.Rank, SS.Successor;
    match st
    case C(c) =>
      CS.PassesRank(c, p, q);
      CS.PassesChecks(c, p, q);
      CS.PassesKeys(c, p, q);
      CS.PassesSent(c, p, q);
      CS.PassesGot(c, p, q);
    case S(s) =>
      SS.PassesRank(s, p, q);
      SS.PassesChecks(s, p, q);
      SS.PassesKeys(s, p, q);
      SS.PassesSent(s, p, q);
      SS.PassesGot(s, p, q);
  }

  // ----- The order of the states -----

  /** States whose ranks strictly increase. */
  predicate InOrder(completed: seq<State>, resumed: bool) {
    forall i, j | 0 <= i < j < |completed| :: Rank(completed[i], resumed) < Rank(completed[j], resumed)
  }

  predicate AllBelow(completed: seq<State>, rank: nat, resumed: bool) {
    forall i | 0 <= i < |completed| :: Rank(completed[i], resumed) < rank
  }

  /** Until it is decided whether a session is resumed, both kinds of handshake pass the same states. */
  lemma SameEarly(st: State)
    ensures Rank(st, false) < 4 ==> Rank(st, true) == Rank(st, false)
  {
  }

  lemma DecidedEarly(st: State, p: Params, q: Params)
    requires Checked(st, p) && Decides(st, p, q) && p.hello.resumed != q.hello.resumed
    ensures !p.hello.resumed && Rank(st, false) < 4
  {
    match st
    case C(c) => CS.Stays(c, p, q);
    case S(s) => SS.Stays(s, p, q);
  }

  lemma OrderKept(completed: seq<State>, st: State, p: Params, q: Params)
    requires Checked(st, p) && Decides(st, p, q)
    requires InOrder(completed, p.hello.resumed) && AllBelow(completed, Rank(st, p.hello.resumed), p.hello.resumed)
    ensures InOrder(completed, q.hello.resumed) && AllBelow(completed, Rank(st, p.hello.resumed), q.hello.resumed)
  {
    hide Checked, Decides, Rank;
    if p.hello.resumed != q.hello.resumed {
      DecidedEarly(st, p, q);
      forall i | 0 <= i < |completed|
        ensures Rank(completed[i], q.hello.resumed) == Rank(completed[i], p.hello.resumed)
      {
        SameEarly(completed[i]);
      }
    }
  }

  lemma OrderSnoc(completed: seq<State>, st: State, rank: nat, resumed: bool)
    requires InOrder(completed, resumed) && AllBelow(completed, Rank(st, resumed), resumed) && rank > Rank(st, resumed)
    ensures InOrder(completed + [st], resumed) && AllBelow(completed + [st], rank, resumed)
  {
    hide Rank;
  }

  /** What holds once a state is completed. */
  lemma Entered(st: State, p: Params, q: Params, keys: seq<KeyEvent>, completed: seq<State>, w: Wait)
    requires !IsDone(st) && Checked(st, p) && Decides(st, p, q) && keys == Keyed(st, Keys(st, p))
    requires InOrder(completed, p.hello.resumed) && AllBelow(completed, Rank(st, p.hello.resumed), p.hello.resumed)
    requires NeedsCcs(Successor(st, q)) <==> w == AwaitCcs
    ensures var t := Successor(st, q);
            && Checked(t, q) && SideOf(t) == SideOf(st)
            && Rank(t, q.hello.resumed) > Rank(st, p.hello.resumed) == Rank(st, q.hello.resumed)
            && Sent(t, q) == Added(st, q, Sent(st, p)) && Received(t, q) == Taken(st, q, Received(st, p))
            && Keys(t, q) == (if w == AwaitCcs then keys + [GotCcs] else keys)
            && InOrder(completed + [st], q.hello.resumed)
            && AllBelow(completed + [st], Rank(t, q.hello.resumed), q.hello.resumed)
  {
    hide Checked, Decides, Sent, Received, Keys, Added, Taken, Keyed, Rank, Successor, SideOf, NeedsCcs, IsDone,
         InOrder, AllBelow;
    Passes(st, p, q);
    OrderKept(completed, st, p, q);
    OrderSnoc(completed, st, Rank(Successor(st, q), q.hello.resumed), q.hello.resumed);
  }

  class Handshake {
    const ep: Endpoint
    const answers: nat -> bool       // what callbacks, keys, parsers and the transport answer: false refuses or delays
    var asked: nat                   // how often they have been asked
    var state: State
    var wait: Wait
    var p: Params                    // what has been decided so far
    ghost var completed: seq<State>  // states executed to completion, in order

    /** The endpoint is that of the state's side, and nothing it has taken is left unhashed. */
    ghost predicate Kept(st: State)
      reads ep
    {
      ep.Valid() && ep.Settled() && !ep.digestFailed && ep.side == SideOf(st)
    }

    /** The transcript is as a state needs it: whose turn it is, and exactly which of buffer and hash are there. */
    ghost predicate Fits(st: State, p: Params)
      reads ep`hashed, ep`buffer, ep`hash, ep`inbox
    {
      && (!Finishing(st) ==> (Speaks(st) <==> Speaker(ep.hashed) == ep.side))
      && (ep.buffer.Some? <==> Buffered(st, p)) && (ep.hash.Some? <==> Hashing(st))
      && (HoldsHello(st) ==> ep.HasMessage() && ep.inbox[0].typ == ClientHello)
      && (Unhashed(st) ==> ep.hashed == [])
    }

    /** The states completed so far came in order, and what they were to check was checked. */
    ghost predicate Orderly(was: Params)
      reads `state, `completed
    {
      && Checked(state, was)
      && InOrder(completed, was.hello.resumed) && AllBelow(completed, Rank(state, was.hello.resumed), was.hello.resumed)
    }

    ghost predicate Sound()
      reads `state, `p, `completed, ep
    {
      && Kept(state) && Fits(state, p) && Orderly(p)
      && ep.sent == Sent(state, p) && ep.got == Received(state, p)
    }

    /** What holds in every state, once the event it waited for has happened. */
    ghost predicate Ready()
      reads `state, `p, `completed, ep
    {
      Sound() && ep.keys == Keys(state, p)
    }

    /** What holds whenever the driver stops: only a ChangeCipherSpec may still be outstanding, and only an end that does
        not speak waits for a message. */
    ghost predicate Paused(w: Wait)
      reads `state, `p, `completed, ep
    {
      && Sound()
      && (NeedsCcs(state) <==> w == AwaitCcs)
      && (if w == AwaitCcs then ep.keys + [GotCcs] else ep.keys) == Keys(state, p)
      && (IsDone(state) ==> w == Ok)
      && (w in {AwaitMessage, AwaitServerHello} ==> !Speaks(state) && !Finishing(state))
    }

    /** Somebody outside has been asked since, and the last answer was no. */
    predicate Refused(since: nat)
      reads `asked
    {
      asked > since && !answers(asked - 1)
    }

    /** The next message is none that the state expects, or the one just read does not match the transcript. */
    ghost predicate Misfit()
      reads `state, `p, ep`inbox, ep`hashed, ep`digestFailed
    {
      || ep.digestFailed
      || (ep.HasMessage() && !Expects(state, p, ep.inbox[0].typ, ep.inbox[0].body))
      || (ep.HasMessage() && state == S(SS.ReadClientCertificateVerify) && p.auth.peerKey
          && !ep.accepts(ep.hashed, ep.inbox[0].body))
    }

    /** A step fails only for a refusal or a misfit, and returns to the caller only for a refusal or to report early. */
    ghost predicate Justified(w: Wait, since: nat)
      reads `state, `p, `asked, ep`inbox, ep`hashed, ep`digestFailed
    {
      && asked >= since
      && (w == Error ==> Refused(since) || Misfit())
      && (Weight(w) == 0 && w !in {Error, EarlyReturn} ==> Refused(since))
    }

    /** How a step may change the endpoint: the queue of items is the same, messages are only added, and the transcript
        only grows, unless a HelloVerifyRequest comes to a client. */
    twostate predicate Evolves()
      reads ep
    {
      && ep.consumed + ep.inbox == old(ep.consumed + ep.inbox) && old(ep.outbox) <= ep.outbox
      && (ep.side == Server || NoHvr(ep.consumed + ep.inbox) ==>
            old(ep.hashed) <= ep.hashed && ep.inStart == old(ep.inStart) && ep.outStart == old(ep.outStart))
    }

    /** Nothing happened: the same state, the same wait, nothing received, sent or hashed. */
    twostate predicate Idle()
      reads this, ep
    {
      && state == old(state) && wait == old(wait) && completed == old(completed)
      && ep.inbox == old(ep.inbox) && ep.outbox == old(ep.outbox)
      && ep.hashed == old(ep.hashed) && ep.keys == old(ep.keys)
    }

    /** A step that began in state `from` ends there or in the state that follows; it stays only to wait, for the caller
        or for a message that has not come, and moves on with the wait that belongs to the state. */
    ghost predicate Moved(from: State, was: Params, w: Wait, empty: bool)
      reads `state, `p
    {
      && (state == from || state == Successor(from, p))
      && (w != Error && state == from ==>
            && w !in {Ok, EarlyReturn} && p == was && !NeedsCcs(state)
            && (Weight(w) > 0 ==> w in {AwaitMessage, AwaitServerHello} && empty))
      && (w != Error && state != from ==>
            Leaves(from, w) && Rank(state, p.hello.resumed) > Rank(from, was.hello.resumed))
    }

    /** The outcome of a step: an error, or a state in which the driver may stop or go on. */
    twostate predicate Stepped(w: Wait)
      reads this, ep
    {
      && Evolves() && ep.Valid() && (w != Error ==> Paused(w)) && Justified(w, old(asked))
      && Moved(old(state), old(p), w, !old(ep.HasMessage()) && ep.inbox == old(ep.inbox))
    }

    /** The outcome of steps: an error, a stop, or the end of the handshake. With nothing to read, a handshake that
        waits for a message does not move. */
    twostate predicate Ran(w: Wait)
      reads this, ep
    {
      && Evolves() && ep.Valid() && (w != Error ==> Paused(w)) && (w == Ok ==> IsDone(state))
      && Justified(w, old(asked))
      && (w != Error ==> Rank(state, p.hello.resumed) >= old(Rank(state, p.hello.resumed)))
      && (w == Ok && !old(IsDone(state)) ==> Rank(state, p.hello.resumed) > old(Rank(state, p.hello.resumed)))
      && (w != Error && w != Ok && Rank(state, p.hello.resumed) == old(Rank(state, p.hello.resumed)) ==>
            && !old(NeedsCcs(state))
            && (Weight(w) > 0 ==> w in {AwaitMessage, AwaitServerHello} && !old(ep.HasMessage())))
    }

    constructor (side: Side, mac: (seq<Entry>, Side) -> seq<byte>, sign: (seq<Entry>, nat) -> seq<byte>,
                 accepts: (seq<Entry>, seq<byte>) -> bool, answers: nat -> bool, dtls: bool)
      ensures Paused(Ok) && wait == Ok && completed == [] && state == First(side) && p == Undecided(dtls)
      ensures fresh(ep) && ep.side == side && ep.mac == mac && ep.sign == sign && ep.accepts == accepts
      ensures this.answers == answers && asked == 0
      ensures ep.hashed == [] && ep.inbox == ep.outbox == ep.consumed == [] && ep.inStart == ep.outStart == 0
    {
      ep := new Endpoint(side, mac, sign, accepts);
      this.answers, asked := answers, 0;
      state, wait, p, completed := First(side), Ok, Undecided(dtls), [];
      new;
      hide Endpoint.Valid, Endpoint.Settled, FromSide, Entries, Polite, Checked, Sent, Received, Keys, Rank;
      Begins(state, p);
    }

    /** A callback, a key operation, a parser or the transport answers. */
    method Ask() returns (yes: bool)
      modifies `asked
      ensures asked == old(asked) + 1 && (yes <==> !Refused(old(asked)))
    {
      yes := answers(asked);
      asked := asked + 1;
    }

    /** The current state, entered with `was` decided, is completed and the next one entered. */
    method Advance(ghost was: Params, ghost since: nat, next: State, w: Wait)
      requires !IsDone(state) && Orderly(was) && Decides(state, was, p) && next == Successor(state, p)
      requires Kept(state) && Fits(next, p)
      requires ep.sent == Added(state, p, Sent(state, was)) && ep.got == Taken(state, p, Received(state, was))
      requires ep.keys == Keyed(state, Keys(state, was))
      requires Leaves(state, w) && asked >= since
      modifies `state, `completed
      ensures Paused(w) && state == next && completed == old(completed) + [old(state)]
      ensures Moved(old(state), was, w, true) && Moved(old(state), was, w, false) && Justified(w, since)
    {
      hide Endpoint.Valid, Endpoint.Settled, FromSide, Entries, Polite, Speaker, Fits, Checked, Decides, Sent,
           Received, Keys, Added, Taken, Keyed, Rank, Successor, SideOf, NeedsCcs, Leaves, IsDone, InOrder, AllBelow;
      LeavesFor(state, p, w);
      Entered(state, was, p, ep.keys, completed, w);
      completed := completed + [state];
      state := next;
    }

    /** A step that only waits, for the caller or for a message that has not come. */
    lemma Waits(w: Wait, since: nat)
      requires Ready() && !NeedsCcs(state) && !IsDone(state) && w !in {Ok, Error, AwaitCcs, Flush, EarlyReturn}
      requires asked >= since
      requires if w in {AwaitMessage, AwaitServerHello} then !Speaks(state) && !Finishing(state) else Refused(since)
      ensures Paused(w) && Moved(state, p, w, true) && Justified(w, since)
      ensures w !in {AwaitMessage, AwaitServerHello} ==> Moved(state, p, w, false)
    {
      hide Endpoint.Valid, Endpoint.Settled, Fits, Orderly, Sent, Received, Keys, Rank, Successor, NeedsCcs, IsDone,
           Speaks, Finishing;
    }

    /** A step that fails, before or after its state is completed. */
    lemma Fails(was: Params, since: nat)
      requires asked >= since && (Refused(since) || Misfit())
      ensures Moved(state, was, Error, true) && Moved(state, was, Error, false) && Justified(Error, since)
    {
    }

    /** What a later part of a step was refused, the step was refused. */
    lemma Since(w: Wait, part: nat, since: nat)
      requires Justified(w, part) && part >= since
      ensures Justified(w, since)
    {
      hide Misfit;
    }

    lemma FailsAfter(from: State, was: Params, since: nat)
      requires state == Successor(from, p) && Refused(since)
      ensures Moved(from, was, Error, true) && Moved(from, was, Error, false) && Justified(Error, since)
    {
    }
  }
}
