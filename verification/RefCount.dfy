/** The lock-free reference count, and the locked one it stands for. */
module RefCount {
  import opened Bytes

  const MAX := 0xffff_ffff  // CRYPTO_REFCOUNT_MAX

  datatype Op = Inc | Dec
  datatype Result = Void | ReachedZero(yes: bool) | Abort

  // ----- The locked form -----

  /** One call under the lock: the new count and the result. */
  function Locked(count: nat, op: Op): (nat, Result) {
    match op
    case Inc => (if count < MAX then count + 1 else count, Void)
    case Dec =>
      if count == 0 then (count, Abort)
      else
        var c := if count < MAX then count - 1 else count;
        (c, ReachedZero(c == 0))
  }

  // ----- The lock-free form, one atomic access at a time -----

  /** A thread inside a call holds the value it expects; `lin` is what the call has already been decided to return, when
      what it expects leaves no compare-exchange to try. */
  datatype Thread = Idle | Running(op: Op, expected: nat, lin: Option<Result>)

  datatype System = System(count: nat, threads: seq<Thread>)

  /** What may happen next: a thread starts a call with a load, or makes its next attempt. A weak compare-exchange may
      fail although the value is the expected one. */
  datatype Event = Call(thread: nat, op: Op) | Attempt(thread: nat, spurious: bool)

  /** The effect of an event on the locked form: none, or one call. */
  datatype Effect = Silent | Takes(thread: nat, op: Op, result: Result)

  /** Loaded values that end the loop: a decrement aborts on zero, and a saturated count stays. */
  predicate Decided(op: Op, loaded: nat) {
    loaded == MAX || (op == Dec && loaded == 0)
  }

  function Loaded(count: nat, op: Op): Thread {
    Running(op, count, if Decided(op, count) then Some(Locked(count, op).1) else None)
  }

  function LoadEffect(count: nat, op: Op, t: nat): Effect {
    if Decided(op, count) then Takes(t, op, Locked(count, op).1) else Silent
  }

  predicate Enabled(s: System, e: Event) {
    && e.thread < |s.threads|
    && (e.Call? ==> s.threads[e.thread].Idle?)
    && (e.Attempt? ==> s.threads[e.thread].Running?)
  }

  /** The system after an event, its effect, and what the call returns if it ends. */
  function Step(s: System, e: Event): (r: (System, Effect, Option<Result>))
    requires Enabled(s, e)
  {
    var t := e.thread;
    match e
    case Call(_, op) => (s.(threads := s.threads[t := Loaded(s.count, op)]), LoadEffect(s.count, op, t), None)
    case Attempt(_, spurious) =>
      var (op, expected) := (s.threads[t].op, s.threads[t].expected);
      var ended := s.(threads := s.threads[t := Idle]);
      if op == Inc then
        if expected == MAX then (ended, Silent, Some(Void))
        else if s.count == expected && !spurious then
          (ended.(count := expected + 1), Takes(t, Inc, Void), Some(Void))
        else (s.(threads := s.threads[t := Loaded(s.count, op)]), LoadEffect(s.count, op, t), None)
      else
        if expected == 0 then (ended, Silent, Some(Abort))
        else if expected == MAX then (ended, Silent, Some(ReachedZero(false)))
        else if s.count == expected && !spurious then
          (ended.(count := expected - 1), Takes(t, Dec, ReachedZero(expected - 1 == 0)),
           Some(ReachedZero(expected - 1 == 0)))
        else (s.(threads := s.threads[t := Loaded(s.count, op)]), LoadEffect(s.count, op, t), None)
  }

  predicate ThreadValid(th: Thread) {
    th.Running? ==>
      && th.expected <= MAX
      && th.lin == if Decided(th.op, th.expected) then Some(Locked(th.expected, th.op).1) else None
  }

  predicate Valid(s: System) {
    s.count <= MAX && forall t | 0 <= t < |s.threads| :: ThreadValid(s.threads[t])
  }

  // ----- Runs -----

  predicate Possible(s: System, es: seq<Event>)
    decreases |es|
  {
    es == [] || (Enabled(s, es[0]) && Possible(Step(s, es[0]).0, es[1..]))
  }

  function Final(s: System, es: seq<Event>): System
    requires Possible(s, es)
    decreases |es|
  {
    if es == [] then s else Final(Step(s, es[0]).0, es[1..])
  }

  /** The calls a run takes effect as, in order. */
  function Effects(s: System, es: seq<Event>): seq<Effect>
    requires Possible(s, es)
    ensures forall i | 0 <= i < |Effects(s, es)| :: Effects(s, es)[i].Takes?
    decreases |es|
  {
    if es == [] then []
    else
      var (next, effect, _) := Step(s, es[0]);
      (if effect.Takes? then [effect] else []) + Effects(next, es[1..])
  }

  /** The sequence of calls is one the locked form performs, with the same results. */
  predicate Sequential(count: nat, calls: seq<Effect>)
    requires forall i | 0 <= i < |calls| :: calls[i].Takes?
    decreases |calls|
  {
    calls == []
    || (calls[0].result == Locked(count, calls[0].op).1 && Sequential(Locked(count, calls[0].op).0, calls[1..]))
  }

  function CountAfter(count: nat, calls: seq<Effect>): nat
    requires forall i | 0 <= i < |calls| :: calls[i].Takes?
    decreases |calls|
  {
    if calls == [] then count else CountAfter(Locked(count, calls[0].op).0, calls[1..])
  }

  lemma StepIsCall(s: System, e: Event)
    requires Valid(s) && Enabled(s, e)
    ensures var (next, effect, _) := Step(s, e);
            && Valid(next)
            && (if effect.Takes? then (next.count, effect.result) == Locked(s.count, effect.op) else next.count == s.count)
  {
  }

  /** Any interleaving of any number of threads takes effect as a sequence of locked calls with the same results and the
      same count. */
  lemma {:induction false} Linearizes(s: System, es: seq<Event>)
    requires Valid(s) && Possible(s, es)
    ensures Sequential(s.count, Effects(s, es))
    ensures Final(s, es).count == CountAfter(s.count, Effects(s, es))
    decreases |es|
  {
    if es != [] {
      hide Step, Locked;
      var (next, effect, _) := Step(s, es[0]);
      var calls := Effects(s, es);
      StepIsCall(s, es[0]);
      Linearizes(next, es[1..]);
      if effect.Takes? {
        assert calls[0] == effect && calls[1..] == Effects(next, es[1..]);
      } else {
        assert calls == Effects(next, es[1..]);
      }
    }
  }

  // ----- Each call takes effect once, while it runs -----

  function ResultsOf(calls: seq<Effect>, t: nat): seq<Result>
    requires forall i | 0 <= i < |calls| :: calls[i].Takes?
    decreases |calls|
  {
    if calls == [] then []
    else (if calls[0].thread == t then [calls[0].result] else []) + ResultsOf(calls[1..], t)
  }

  function Returned(s: System, es: seq<Event>, t: nat): seq<Result>
    requires Possible(s, es)
    decreases |es|
  {
    if es == [] then []
    else
      var (next, _, ret) := Step(s, es[0]);
      (if es[0].thread == t && ret.Some? then [ret.value] else []) + Returned(next, es[1..], t)
  }

  /** What a thread's running call has been decided to return. */
  function Pending(s: System, t: nat): seq<Result>
    requires t < |s.threads|
  {
    if s.threads[t].Running? && s.threads[t].lin.Some? then [s.threads[t].lin.value] else []
  }

  lemma StepPending(s: System, e: Event, t: nat)
    requires Valid(s) && Enabled(s, e) && t < |s.threads|
    ensures var (next, effect, ret) := Step(s, e);
            && |next.threads| == |s.threads|
            && Pending(s, t) + (if effect.Takes? && effect.thread == t then [effect.result] else [])
               == (if e.thread == t && ret.Some? then [ret.value] else []) + Pending(next, t)
  {
  }

  lemma Chain(p: seq<Result>, now: seq<Result>, later: seq<Result>, back: seq<Result>, q: seq<Result>, r: seq<Result>,
              f: seq<Result>)
    requires p + now == back + q && q + later == r + f
    ensures p + (now + later) == (back + r) + f
  {
    assert p + (now + later) == (p + now) + later;
    assert (back + q) + later == back + (q + later);
    assert back + (r + f) == (back + r) + f;
  }

  /** What a thread's calls return is, in order, what the locked calls on its behalf return: one for each, and it takes
      effect no earlier than the call starts and no later than it returns. */
  lemma {:induction false} OneEffectPerCall(s: System, es: seq<Event>, t: nat)
    requires Valid(s) && Possible(s, es) && t < |s.threads|
    ensures |Final(s, es).threads| == |s.threads|
    ensures Pending(s, t) + ResultsOf(Effects(s, es), t) == Returned(s, es, t) + Pending(Final(s, es), t)
    decreases |es|
  {
    hide Step, Locked, Pending, Valid;
    if es != [] {
      var (next, effect, ret) := Step(s, es[0]);
      StepIsCall(s, es[0]);
      StepPending(s, es[0], t);
      OneEffectPerCall(next, es[1..], t);
      var now := if effect.Takes? && effect.thread == t then [effect.result] else [];
      var back := if es[0].thread == t && ret.Some? then [ret.value] else [];
      var later := Effects(next, es[1..]);
      if effect.Takes? {
        assert Effects(s, es)[1..] == later;
      } else {
        assert Effects(s, es) == later;
      }
      Chain(Pending(s, t), now, ResultsOf(later, t), back, Pending(next, t), Returned(next, es[1..], t),
            Pending(Final(s, es), t));
    }
  }

  // ----- What callers rely on -----

  /** Once the count has reached zero, no decrement says so again before an increment. */
  lemma {:induction false} ZeroOnce(calls: seq<Effect>)
    requires forall i | 0 <= i < |calls| :: calls[i].Takes? && calls[i].op == Dec
    requires Sequential(0, calls)
    ensures forall i | 0 <= i < |calls| :: calls[i].result == Abort
    decreases |calls|
  {
    if calls != [] {
      ZeroOnce(calls[1..]);
      forall i | 0 <= i < |calls| ensures calls[i].result == Abort {
        assert i > 0 ==> calls[i] == calls[1..][i - 1];
      }
    }
  }

  /** A saturated count never changes, and no decrement of it reports zero. */
  lemma {:induction false} Saturated(calls: seq<Effect>)
    requires forall i | 0 <= i < |calls| :: calls[i].Takes?
    requires Sequential(MAX, calls)
    ensures CountAfter(MAX, calls) == MAX
    ensures forall i | 0 <= i < |calls| :: calls[i].result == if calls[i].op == Inc then Void else ReachedZero(false)
    decreases |calls|
  {
    if calls != [] {
      Saturated(calls[1..]);
      forall i | 0 <= i < |calls|
        ensures calls[i].result == if calls[i].op == Inc then Void else ReachedZero(false)
      {
        assert i > 0 ==> calls[i] == calls[1..][i - 1];
      }
    }
  }

  lemma {:induction false} SequentialSplit(count: nat, calls: seq<Effect>, k: nat)
    requires forall i | 0 <= i < |calls| :: calls[i].Takes?
    requires Sequential(count, calls) && k <= |calls|
    ensures Sequential(CountAfter(count, calls[..k]), calls[k..])
    decreases k
  {
    if k > 0 {
      SequentialSplit(Locked(count, calls[0].op).0, calls[1..], k - 1);
      assert calls[..k][1..] == calls[1..][..k - 1] && calls[1..][k - 1..] == calls[k..];
    } else {
      assert calls[0..] == calls;
    }
  }

  lemma CallsApart(count: nat, calls: seq<Effect>, i: nat, j: nat)
    requires forall k | 0 <= k < |calls| :: calls[k].Takes?
    requires Sequential(count, calls) && i < j < |calls|
    requires calls[i].result == calls[j].result == ReachedZero(true)
    ensures exists k | i < k < j :: calls[k].op == Inc
  {
    hide CountAfter;
    SequentialSplit(count, calls, i);
    var from := calls[i..];
    assert from[0] == calls[i] && from[1..] == calls[i + 1..];
    SequentialPrefix(0, calls[i + 1..], j - i);
    var between := calls[i + 1..][..j - i];
    assert between[j - i - 1] == calls[j];
    if forall k | i < k < j :: calls[k].op == Dec {
      forall k | 0 <= k < |between| ensures between[k].Takes? && between[k].op == Dec {
        assert between[k] == calls[i + 1 + k];
        DecReports(count, calls, j);
      }
      ZeroOnce(between);
      assert false;
    }
  }

  /** Between two decrements that report zero there is an increment: nobody else releases what one thread is told to. */
  lemma ReportsApart(s: System, es: seq<Event>, i: nat, j: nat)
    requires Valid(s) && Possible(s, es)
    requires i < j < |Effects(s, es)|
    requires Effects(s, es)[i].result == Effects(s, es)[j].result == ReachedZero(true)
    ensures exists k | i < k < j :: Effects(s, es)[k].op == Inc
  {
    hide Step, Locked, Effects, Final, Sequential;
    Linearizes(s, es);
    CallsApart(s.count, Effects(s, es), i, j);
  }

  /** Only a decrement reports zero. */
  lemma DecReports(count: nat, calls: seq<Effect>, k: nat)
    requires forall i | 0 <= i < |calls| :: calls[i].Takes?
    requires Sequential(count, calls) && k < |calls| && calls[k].result.ReachedZero?
    ensures calls[k].op == Dec
  {
    hide CountAfter;
    SequentialSplit(count, calls, k);
    assert calls[k..][0] == calls[k];
  }

  lemma {:induction false} SequentialPrefix(count: nat, calls: seq<Effect>, k: nat)
    requires forall i | 0 <= i < |calls| :: calls[i].Takes?
    requires Sequential(count, calls) && k <= |calls|
    ensures Sequential(count, calls[..k])
    decreases k
  {
    if k > 0 {
      SequentialPrefix(Locked(count, calls[0].op).0, calls[1..], k - 1);
      assert calls[..k][1..] == calls[1..][..k - 1];
    }
  }

  // ----- What is reported, counted in references -----

  function Calls(calls: seq<Effect>, op: Op): nat
    requires forall i | 0 <= i < |calls| :: calls[i].Takes?
    decreases |calls|
  {
    if calls == [] then 0 else (if calls[0].op == op then 1 else 0) + Calls(calls[1..], op)
  }

  /** The references held after the first k calls: each increment takes one and each decrement gives one back. */
  function Held(n: nat, calls: seq<Effect>, k: nat): int
    requires k <= |calls| && forall i | 0 <= i < |calls| :: calls[i].Takes?
  {
    n + Calls(calls[..k], Inc) - Calls(calls[..k], Dec)
  }

  lemma {:induction false} CallsSnoc(n: nat, calls: seq<Effect>, c: Effect)
    requires c.Takes? && forall i | 0 <= i < |calls| :: calls[i].Takes?
    ensures Calls(calls + [c], Inc) == Calls(calls, Inc) + (if c.op == Inc then 1 else 0)
    ensures Calls(calls + [c], Dec) == Calls(calls, Dec) + (if c.op == Dec then 1 else 0)
    ensures CountAfter(n, calls + [c]) == Locked(CountAfter(n, calls), c.op).0
    decreases |calls|
  {
    hide Locked;
    if calls == [] {
      assert [c][1..] == [];
    } else {
      assert (calls + [c])[1..] == calls[1..] + [c];
      CallsSnoc(Locked(n, calls[0].op).0, calls[1..], c);
    }
  }

  /** One more call, on as many references as are held. */
  lemma HeldNext(n: nat, calls: seq<Effect>, k: nat)
    requires k < |calls| && forall i | 0 <= i < |calls| :: calls[i].Takes?
    requires Sequential(n, calls)
    ensures Held(n, calls, k + 1) == Held(n, calls, k) + if calls[k].op == Inc then 1 else -1
    ensures CountAfter(n, calls[..k + 1]) == Locked(CountAfter(n, calls[..k]), calls[k].op).0
    ensures calls[k].result == Locked(CountAfter(n, calls[..k]), calls[k].op).1
  {
    hide Locked, CountAfter, Calls;
    assert calls[..k + 1] == calls[..k] + [calls[k]];
    CallsSnoc(n, calls[..k], calls[k]);
    SequentialSplit(n, calls, k);
    assert calls[k..][0] == calls[k];
  }

  /** As long as no more is given back than is held and the maximum is not reached, the count is the references held. */
  lemma {:induction false} CountIsHeld(n: nat, calls: seq<Effect>, k: nat)
    requires k <= |calls| && forall i | 0 <= i < |calls| :: calls[i].Takes?
    requires Sequential(n, calls) && forall j | 0 <= j <= k :: 0 <= Held(n, calls, j) < MAX
    ensures CountAfter(n, calls[..k]) == Held(n, calls, k)
    decreases k
  {
    hide Sequential, Held;
    if k == 0 {
      assert Held(n, calls, 0) == n by { NothingHeld(n, calls); }
    } else {
      CountIsHeld(n, calls, k - 1);
      HeldNext(n, calls, k - 1);
    }
  }

  lemma NothingHeld(n: nat, calls: seq<Effect>)
    requires forall i | 0 <= i < |calls| :: calls[i].Takes?
    ensures Held(n, calls, 0) == n
  {
  }

  /** As long as no call aborts, no more is given back than is held. */
  lemma {:induction false} HeldUnlessAborted(n: nat, calls: seq<Effect>, k: nat)
    requires k <= |calls| && forall i | 0 <= i < |calls| :: calls[i].Takes?
    requires Sequential(n, calls) && forall j | 0 <= j <= k :: Held(n, calls, j) < MAX
    requires forall i | 0 <= i < k :: calls[i].result != Abort
    ensures forall j | 0 <= j <= k :: Held(n, calls, j) >= 0
    decreases k
  {
    hide Sequential, Held;
    NothingHeld(n, calls);
    if k > 0 {
      HeldUnlessAborted(n, calls, k - 1);
      CountIsHeld(n, calls, k - 1);
      HeldNext(n, calls, k - 1);
    }
  }

  /** What a call reports when so many references are held after it. */
  function Report(op: Op, held: int): Result {
    if op == Inc then Void else ReachedZero(held == 0)
  }

  /** Over a run that keeps the count below its maximum: a call aborts only if more is given back than is held, and as
      long as none does, the count is the references held and a decrement reports zero exactly when it gives back the
      last of them. */
  lemma CountsReferences(s: System, es: seq<Event>)
    requires Valid(s) && Possible(s, es)
    requires forall k | 0 <= k <= |Effects(s, es)| :: Held(s.count, Effects(s, es), k) < MAX
    ensures var calls := Effects(s, es);
            && ((forall i | 0 <= i < |calls| :: calls[i].result != Abort)
                <==> (forall k | 0 <= k <= |calls| :: Held(s.count, calls, k) >= 0))
            && ((forall i | 0 <= i < |calls| :: calls[i].result != Abort) ==>
                  && Final(s, es).count == Held(s.count, calls, |calls|)
                  && forall i | 0 <= i < |calls| :: calls[i].result == Report(calls[i].op, Held(s.count, calls, i + 1)))
  {
    hide Step, Effects, Final, Sequential, Held, Possible;
    var n, calls := s.count, Effects(s, es);
    Linearizes(s, es);
    if forall i | 0 <= i < |calls| :: calls[i].result != Abort {
      HeldUnlessAborted(n, calls, |calls|);
    }
    if forall k | 0 <= k <= |calls| :: Held(n, calls, k) >= 0 {
      forall i | 0 <= i < |calls| ensures calls[i].result == Report(calls[i].op, Held(n, calls, i + 1)) {
        CountIsHeld(n, calls, i);
        HeldNext(n, calls, i);
      }
      CountIsHeld(n, calls, |calls|);
      assert calls[..|calls|] == calls;
    }
  }
}
