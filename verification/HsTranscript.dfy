/** The transcript of a handshake, and why two peers that take turns on reliable channels agree on it. */
module HsTranscript {
  import opened Bytes

  datatype Side = Client | Server

  datatype MsgType =
    | HelloVerifyRequest | ClientHello | ServerHello | Certificate | CertificateStatus | ServerKeyExchange
    | CertificateRequest | ServerHelloDone | ClientKeyExchange | CertificateVerify | NextProto | ChannelId
    | NewSessionTicket | Finished

  /** A message in a transcript, with the side it came from. */
  datatype Entry = Entry(from: Side, typ: MsgType, body: seq<byte>)

  function Peer(s: Side): Side {
    if s == Client then Server else Client
  }

  /** The messages after which a side waits for the other. */
  predicate EndsTurn(t: MsgType) {
    t == ClientHello || t == ServerHelloDone || t == Finished
  }

  /** Whose turn it is after a transcript. */
  function Speaker(t: seq<Entry>): Side {
    if t == [] then Client
    else
      var last := t[|t| - 1];
      if EndsTurn(last.typ) then Peer(last.from) else last.from
  }

  lemma SpeakerSnoc(t: seq<Entry>, e: Entry)
    ensures Speaker(t + [e]) == if EndsTurn(e.typ) then Peer(e.from) else e.from
  {
  }

  predicate SpeaksAt(t: seq<Entry>, i: nat)
    requires i < |t|
  {
    Speaker(t[..i]) == t[i].from
  }

  /** A side adds a message only when it is its turn. */
  predicate Polite(t: seq<Entry>, me: Side) {
    forall i | 0 <= i < |t| && t[i].from == me :: SpeaksAt(t, i)
  }

  /** The messages of one side, in order. */
  function FromSide(t: seq<Entry>, s: Side): seq<Entry> {
    if t == [] then []
    else
      var last := t[|t| - 1];
      FromSide(t[..|t| - 1], s) + if last.from == s then [last] else []
  }

  predicate Comparable(a: seq<Entry>, b: seq<Entry>) {
    a <= b || b <= a
  }

  lemma FromSideSnoc(t: seq<Entry>, e: Entry, s: Side)
    ensures FromSide(t + [e], s) == if e.from == s then FromSide(t, s) + [e] else FromSide(t, s)
  {
    assert (t + [e])[..|t|] == t;
  }

  lemma {:induction false} FromSideTake(t: seq<Entry>, k: nat, s: Side)
    requires k <= |t|
    ensures FromSide(t[..k], s) <= FromSide(t, s)
    decreases |t|
  {
    if k < |t| {
      FromSideTake(t[..|t| - 1], k, s);
      assert t[..|t| - 1][..k] == t[..k];
    } else {
      assert t[..k] == t;
    }
  }

  lemma PoliteTake(t: seq<Entry>, k: nat, me: Side)
    requires Polite(t, me) && k <= |t|
    ensures Polite(t[..k], me)
  {
    forall i | 0 <= i < k && t[..k][i].from == me ensures SpeaksAt(t[..k], i) {
      assert SpeaksAt(t, i) && t[..k][..i] == t[..i];
    }
  }

  lemma PoliteSnoc(t: seq<Entry>, e: Entry, me: Side)
    requires Polite(t, me) && (e.from == me ==> Speaker(t) == me)
    ensures Polite(t + [e], me)
  {
    forall i | 0 <= i < |t| + 1 && (t + [e])[i].from == me ensures SpeaksAt(t + [e], i) {
      if i < |t| {
        assert SpeaksAt(t, i) && (t + [e])[..i] == t[..i];
      } else {
        assert (t + [e])[..i] == t;
      }
    }
  }

  /** What the theorem needs of the two ends: both polite, and neither has received what the other did not send. */
  predicate Honest(mine: seq<Entry>, yours: seq<Entry>, me: Side) {
    && Polite(mine, me) && Polite(yours, Peer(me))
    && FromSide(yours, me) <= FromSide(mine, me)
    && FromSide(mine, Peer(me)) <= FromSide(yours, Peer(me))
  }

  /** One more message on my side keeps the transcripts comparable. */
  lemma StepComparable(mine: seq<Entry>, e: Entry, yours: seq<Entry>, me: Side)
    requires Honest(mine, yours, me) && Honest(mine + [e], yours, me) && Comparable(mine, yours)
    ensures Comparable(mine + [e], yours)
  {
    hide FromSide;
    if yours <= mine {
      assert yours <= mine + [e];
    } else {
      var next := yours[|mine|];
      assert yours[..|mine| + 1] == mine + [next] && yours[..|mine|] == mine;
      FromSideTake(yours, |mine| + 1, me);
      FromSideSnoc(mine, next, me);
      assert next.from == Peer(me);
      assert SpeaksAt(yours, |mine|);
      assert (mine + [e])[..|mine|] == mine && (mine + [e])[|mine|] == e;
      assert e.from == me ==> SpeaksAt(mine + [e], |mine|);
      FromSideTake(yours, |mine| + 1, Peer(me));
      FromSideSnoc(mine, e, Peer(me));
      FromSideSnoc(mine, next, Peer(me));
      assert FromSide(yours, Peer(me))[|FromSide(mine, Peer(me))|] == next == e;
    }
  }

  /** Whatever one side does, in any number of steps, the transcripts stay comparable. */
  lemma {:induction false} RunComparable(mine: seq<Entry>, later: seq<Entry>, yours: seq<Entry>, me: Side)
    requires Honest(mine, yours, me) && Honest(later, yours, me) && mine <= later && Comparable(mine, yours)
    ensures Comparable(later, yours)
    decreases |later|
  {
    hide FromSide, Speaker;
    if |mine| < |later| {
      var k := |later| - 1;
      var before := later[..k];
      PoliteTake(later, k, me);
      FromSideTake(later, k, Peer(me));
      FromSideTake(before, |mine|, me);
      assert before[..|mine|] == mine;
      assert before + [later[k]] == later;
      RunComparable(mine, before, yours, me);
      StepComparable(before, later[k], yours, me);
    } else {
      assert mine == later;
    }
  }

  /** What I have received as the i-th message, my peer has sent as its i-th, after the very same messages. */
  lemma ReceivedWasSent(mine: seq<Entry>, yours: seq<Entry>, me: Side, i: nat)
    requires Honest(mine, yours, me) && Comparable(mine, yours)
    requires i < |mine| && mine[i].from == Peer(me)
    ensures i < |yours| && mine[..i] == yours[..i] && mine[i] == yours[i]
  {
    hide FromSide, Speaker;
    var before := mine[..i];
    FromSideTake(mine, i + 1, Peer(me));
    FromSideSnoc(before, mine[i], Peer(me));
    assert before + [mine[i]] == mine[..i + 1];
    FromSidePrefix(yours, before, Peer(me));
    assert |yours| <= i ==> yours <= before;
  }

  lemma FromSidePrefix(a: seq<Entry>, b: seq<Entry>, s: Side)
    ensures a <= b ==> FromSide(a, s) <= FromSide(b, s)
  {
    if a <= b {
      FromSideTake(b, |a|, s);
      assert b[..|a|] == a;
    }
  }
}
