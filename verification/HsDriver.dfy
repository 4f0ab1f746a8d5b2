/** The handshake driver of either side: it resolves what the last step waited for and lets the side's steps run. */
module HsDriver {
  import opened Bytes
  import opened HsStages
  import opened HsTranscript
  import opened HsEndpoint
  import opened HsHandshake
  import HsClient
  import HsServer

  /** do_handshake: the steps of the handshake's side. */
  method DoHandshake(hs: Handshake) returns (w: Wait)
    requires hs.Ready()
    modifies hs, hs.ep
    ensures hs.Ran(w)
  {
    hide *;
    if hs.state.C? {
      w := HsClient.Run(hs);
    } else {
      w := HsServer.Run(hs);
    }
  }

  /** What a driver that stopped for `why` did not get: the item it waits for, or a yes from outside. */
  ghost predicate Lacks(hs: Handshake, why: Wait, since: nat)
    reads hs`asked, hs`wait, hs.ep`inbox
  {
    if Weight(why) == 1 then hs.wait == why && !hs.ep.Arrived(why, true) else hs.Refused(since)
  }

  /** How a driver returns: in the last state with success, early, or unsuccessful. */
  ghost predicate Ended(hs: Handshake, ret: int, early: bool, why: Wait)
    reads hs`state, hs`wait
  {
    if hs.wait == Error then ret == -1 && !early
    else
      && ret == (if why in {Ok, EarlyReturn} then 1 else -1) && (early <==> why == EarlyReturn)
      && (why == Ok ==> IsDone(hs.state) && hs.wait == Ok)
  }

  /** The driver is in a later state than it was. */
  twostate predicate Later(hs: Handshake)
    reads hs`state, hs`p
  {
    Rank(hs.state, hs.p.hello.resumed) > old(Rank(hs.state, hs.p.hello.resumed))
  }

  /** What the last step waited for is looked for. */
  method Wake(hs: Handshake) returns (blocked: bool, early: bool, why: Wait)
    requires hs.wait != Error && hs.Paused(hs.wait)
    modifies hs`asked, hs`wait, hs.ep`inbox, hs.ep`consumed, hs.ep`keys
    ensures hs.ep.Valid() && hs.Evolves() && hs.asked >= old(hs.asked)
    ensures why == old(hs.wait) && (early <==> why == EarlyReturn) && (Weight(why) == 0 ==> hs.asked == old(hs.asked))
    ensures blocked ==>
              && hs.wait == (if Weight(why) == 0 then Ok else why) && hs.Paused(hs.wait)
              && hs.ep.inbox == old(hs.ep.inbox) && hs.ep.keys == old(hs.ep.keys)
              && why != Ok && (Lacks(hs, why, old(hs.asked)) || Weight(why) == 0)
    ensures !blocked ==> hs.Ready() && Weight(why) > 0 && (why == AwaitCcs || hs.ep.inbox == old(hs.ep.inbox))
    ensures Weight(why) == 1 ==> (blocked <==> !old(hs.ep.Arrived(hs.wait, true)))
  {
    hide FromSide, Entries, Polite, Speaker, InOrder, AllBelow, Endpoint.Valid, Endpoint.Settled, NoHvr,
         Handshake.Orderly, Sent, Received, Keys, Rank, Buffered, Hashing, Speaks, Finishing, Unhashed, HoldsHello,
         NeedsCcs, IsDone;
    var flushed := true;
    why := hs.wait;
    if hs.wait == Flush {
      flushed := hs.Ask();
    }
    blocked, early, hs.wait := hs.ep.Resolve(hs.wait, flushed);
  }

  /** One turn of the loop of ssl_run_handshake. */
  method Turn(hs: Handshake) returns (stop: bool, ret: int, early: bool, why: Wait)
    requires hs.wait != Error && hs.Paused(hs.wait)
    modifies hs, hs.ep
    ensures hs.ep.Valid() && hs.Evolves()
    ensures hs.wait != Error ==> hs.Paused(hs.wait)
    ensures hs.wait == Error ==> stop && (hs.Refused(old(hs.asked)) || hs.Misfit())
    ensures stop ==> Ended(hs, ret, early, why)
    ensures hs.wait != Error ==> Rank(hs.state, hs.p.hello.resumed) >= old(Rank(hs.state, hs.p.hello.resumed))
    ensures Weight(old(hs.wait)) == 0 ==> stop && why == old(hs.wait) && hs.asked == old(hs.asked)
    ensures stop && ret <= 0 && hs.wait != Error ==>
              why == old(hs.wait) && (Lacks(hs, why, old(hs.asked)) || Weight(why) == 0)
    ensures !stop ==> hs.asked >= old(hs.asked)
    ensures !stop && Weight(hs.wait) == 0 && hs.wait != EarlyReturn ==> hs.Refused(old(hs.asked))
    ensures !stop ==>
              || Later(hs)
              || (Rank(hs.state, hs.p.hello.resumed) == old(Rank(hs.state, hs.p.hello.resumed))
                  && Weight(hs.wait) < Weight(old(hs.wait))
                  && (Weight(old(hs.wait)) == 1 ==> Weight(hs.wait) == 0))
    ensures Weight(old(hs.wait)) == 1 ==>
              if old(hs.ep.Arrived(hs.wait, true)) then stop ==> hs.wait == Error || Later(hs)
              else stop && ret == -1 && hs.Idle()
  {
    hide FromSide, Entries, Polite, Speaker, NoHvr, Endpoint.Valid, Rank, IsDone, Handshake.Misfit, Handshake.Ready;
    var blocked;
    blocked, early, why := Wake(hs);
    if blocked {
      return true, if early then 1 else -1, early, why;
    }
    var w := DoHandshake(hs);
    hs.wait := w;
    if w == Error {
      return true, -1, false, Error;
    }
    return w == Ok, 1, false, w;
  }

  /** ssl_run_handshake. It may be entered any number of times, and each time it comes to an end: with the handshake
      done or reported early, with an error that somebody outside or a misfit message has caused, or for want of what it
      waits for. If that is there, it gets further; entered again before it has arrived, it does nothing. */
  method Run(hs: Handshake) returns (ret: int, early: bool, why: Wait)
    requires hs.ep.Valid() && (hs.wait != Error ==> hs.Paused(hs.wait))
    modifies hs, hs.ep
    ensures hs.ep.Valid() && hs.Evolves()
    ensures hs.wait != Error ==> hs.Paused(hs.wait)
    ensures Ended(hs, ret, early, why)
    ensures old(hs.wait) == Error ==> hs.Idle()
    ensures hs.wait == Error && old(hs.wait) != Error ==> hs.Refused(old(hs.asked)) || hs.Misfit()
    ensures ret <= 0 && hs.wait != Error ==>
              Lacks(hs, why, old(hs.asked)) || (why == old(hs.wait) && Weight(why) == 0)
    ensures Weight(old(hs.wait)) == 1 ==>
              if old(hs.ep.Arrived(hs.wait, true))
              then hs.wait == Error || Later(hs) || Weight(why) == 0
              else ret == -1 && hs.Idle()
  {
    hide FromSide, Entries, Polite, Speaker, InOrder, AllBelow, Endpoint.Valid, Endpoint.Settled, NoHvr,
         Handshake.Paused, Handshake.Misfit, Sent, Received, Keys, Rank, Weight, IsDone;
    if hs.wait == Error {
      return -1, false, Error;
    }
    ghost var first := true;
    while true
      invariant hs.wait != Error && hs.Paused(hs.wait) && hs.Evolves() && hs.asked >= old(hs.asked)
      invariant first ==> hs.Idle()
      invariant Weight(old(hs.wait)) == 1 ==> first || Later(hs) || Weight(hs.wait) == 0
      invariant Weight(old(hs.wait)) == 1 && !old(hs.ep.Arrived(hs.wait, true)) ==> first
      invariant Weight(hs.wait) == 0 ==> first || hs.wait == EarlyReturn || hs.Refused(old(hs.asked))
      decreases 19 - Rank(hs.state, hs.p.hello.resumed), Weight(hs.wait)
    {
      var stop;
      stop, ret, early, why := Turn(hs);
      if stop {
        return;
      }
      first := false;
    }
  }
}
