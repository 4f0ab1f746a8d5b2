/** The server's choice of a cipher among equally preferred ones. */
module CipherChoice {
  import opened Bytes

  type Cipher = nat

  function FirstIndex(list: seq<Cipher>, c: Cipher): (i: nat)
    requires c in list
    ensures i < |list| && list[i] == c && c !in list[..i]
  {
    if list[0] == c then 0 else 1 + FirstIndex(list[1..], c)
  }

  /** The two lists in the roles the preference option gives them: flags say which elements of prio are not the last of
      their group, and are None when every element is a group of its own. */
  datatype Lists = Lists(prio: seq<Cipher>, flags: Option<seq<bool>>, allow: seq<Cipher>, usable: set<Cipher>)

  predicate ListsValid(l: Lists) {
    l.flags.Some? ==> |l.flags.value| == |l.prio|
  }

  /** Not the last of its group. */
  predicate InGroup(l: Lists, i: nat)
    requires ListsValid(l) && i < |l.prio|
  {
    l.flags.Some? && l.flags.value[i]
  }

  /** Usable with the version and the server's configuration, and in the other list. */
  predicate Shared(l: Lists, i: nat)
    requires i < |l.prio|
  {
    l.prio[i] in l.usable && l.prio[i] in l.allow
  }

  /** A group ends between two elements. */
  predicate Apart(l: Lists, i: nat, j: nat)
    requires ListsValid(l) && i <= j < |l.prio|
  {
    exists k | i <= k < j :: !InGroup(l, k)
  }

  /** The element's group has an end. */
  predicate Closed(l: Lists, i: nat)
    requires ListsValid(l)
  {
    exists k | i <= k < |l.prio| :: !InGroup(l, k)
  }

  predicate SameGroup(l: Lists, i: nat, j: nat)
    requires ListsValid(l) && i < |l.prio| && j < |l.prio|
  {
    if i <= j then !Apart(l, i, j) else !Apart(l, j, i)
  }

  /** From the first group with any shared element, the shared one that comes first in the other list. */
  predicate Best(l: Lists, i: nat)
    requires ListsValid(l) && i < |l.prio|
  {
    && Shared(l, i) && Closed(l, i)
    && forall j: nat | j < |l.prio| && Shared(l, j) ::
         && (j < i ==> !Apart(l, j, i))
         && (SameGroup(l, i, j) ==> FirstIndex(l.allow, l.prio[i]) <= FirstIndex(l.allow, l.prio[j]))
  }

  /** There is only one best cipher. */
  lemma BestIsUnique(l: Lists, i: nat, j: nat)
    requires ListsValid(l) && i < |l.prio| && j < |l.prio| && Best(l, i) && Best(l, j)
    ensures l.prio[i] == l.prio[j]
  {
    assert SameGroup(l, i, j) && SameGroup(l, j, i);
  }

  /** With no groups the best cipher is the first shared one of the preferred list. */
  lemma BestWithoutGroups(l: Lists, i: nat)
    requires l.flags.None? && i < |l.prio|
    ensures Best(l, i) <==> Shared(l, i) && forall j: nat | j < i :: !Shared(l, j)
  {
    assert !InGroup(l, i);
    if Best(l, i) {
      forall j: nat | j < i ensures !Shared(l, j) {
        assert !InGroup(l, j);
      }
    } else if Shared(l, i) && forall j: nat | j < i :: !Shared(l, j) {
      forall j: nat | j < |l.prio| && j > i ensures !SameGroup(l, i, j) {
        assert !InGroup(l, i);
      }
    }
  }

  /** When the last flag ends a group, every element is in a group that has an end. */
  lemma AllClosed(l: Lists)
    requires ListsValid(l) && (l.prio == [] || !InGroup(l, |l.prio| - 1))
    ensures forall i: nat | i < |l.prio| :: Closed(l, i)
  {
    forall i: nat | i < |l.prio| ensures Closed(l, i) {
      assert !InGroup(l, |l.prio| - 1);
    }
  }

  /** The loop of ssl3_choose_cipher. Nothing is chosen exactly when no shared cipher is in a group that has an end. */
  method Choose(l: Lists) returns (r: Option<Cipher>)
    requires ListsValid(l)
    ensures r.Some? ==> exists i: nat | i < |l.prio| :: Best(l, i) && r.value == l.prio[i]
    ensures r.None? <==> forall i: nat | i < |l.prio| && Shared(l, i) :: !Closed(l, i)
  {
    var groupMin := -1;
    ghost var start: nat, best: nat := 0, 0;
    for i := 0 to |l.prio|
      invariant start <= i && (forall k | start <= k < i :: InGroup(l, k))
      invariant forall j: nat | j < start :: !Shared(l, j)
      invariant start > 0 ==> !InGroup(l, start - 1)
      invariant groupMin == -1 ==> forall j | start <= j < i :: !Shared(l, j)
      invariant groupMin != -1 ==>
                  && start <= best < i && Shared(l, best) && groupMin == FirstIndex(l.allow, l.prio[best])
                  && forall j | start <= j < i && Shared(l, j) :: groupMin <= FirstIndex(l.allow, l.prio[j])
    {
      if l.prio[i] in l.usable && l.prio[i] in l.allow {
        var cipherIndex := FirstIndex(l.allow, l.prio[i]);
        if InGroup(l, i) {
          if groupMin == -1 || groupMin > cipherIndex {
            groupMin, best := cipherIndex, i;
          }
        } else {
          if groupMin != -1 && groupMin < cipherIndex {
            cipherIndex := groupMin;
          } else {
            best := i;
          }
          GroupBest(l, start, i, best);
          return Some(l.allow[cipherIndex]);
        }
      }
      if !InGroup(l, i) && groupMin != -1 {
        GroupBest(l, start, i, best);
        return Some(l.allow[groupMin]);
      }
      if !InGroup(l, i) {
        start := i + 1;
      }
    }
    forall i: nat | i < |l.prio| && Shared(l, i) ensures !Closed(l, i) {
    }
    return None;
  }

  lemma GroupBest(l: Lists, start: nat, end: nat, best: nat)
    requires ListsValid(l) && start <= best <= end < |l.prio|
    requires (forall k | start <= k < end :: InGroup(l, k)) && !InGroup(l, end)
    requires forall j: nat | j < start :: !Shared(l, j)
    requires Shared(l, best)
    requires forall j | start <= j <= end && Shared(l, j) ::
               FirstIndex(l.allow, l.prio[best]) <= FirstIndex(l.allow, l.prio[j])
    ensures Best(l, best)
  {
    assert Closed(l, best);
    forall j: nat | j < |l.prio| && Shared(l, j)
      ensures (j < best ==> !Apart(l, j, best))
      ensures SameGroup(l, best, j) ==> FirstIndex(l.allow, l.prio[best]) <= FirstIndex(l.allow, l.prio[j])
    {
      if j > end {
        assert Apart(l, best, j);
      }
    }
  }

  /** ssl3_choose_cipher with the lists in the roles that SSL_OP_CIPHER_SERVER_PREFERENCE gives them. A shared cipher is
      missed only when the server prefers and every shared one is in a last group that has no end. */
  method ChooseCipher(client: seq<Cipher>, server: seq<Cipher>, flags: seq<bool>, preferServer: bool, usable: set<Cipher>)
    returns (r: Option<Cipher>)
    requires |flags| == |server|
    ensures r.Some? ==> r.value in usable && r.value in client && r.value in server
    ensures !preferServer || server == [] || !flags[|flags| - 1] ==>
              (r.None? <==> forall c | c in usable && c in client :: c !in server)
    ensures !preferServer && r.Some? ==>
              forall c | c in usable && c in client && c in server :: FirstIndex(client, r.value) <= FirstIndex(client, c)
    ensures preferServer ==>
              var l := Lists(server, Some(flags), client, usable);
              && (r.None? <==> forall i: nat | i < |server| && Shared(l, i) :: !Closed(l, i))
              && (r.Some? ==> exists i: nat | i < |server| :: Best(l, i) && r.value == server[i])
  {
    var l := if preferServer then Lists(server, Some(flags), client, usable) else Lists(client, None, server, usable);
    r := Choose(l);
    if !preferServer && r.Some? {
      ghost var i: nat :| i < |l.prio| && Best(l, i) && r.value == l.prio[i];
      BestWithoutGroups(l, i);
      forall c | c in usable && c in client && c in server ensures FirstIndex(client, r.value) <= FirstIndex(client, c) {
        ghost var j := FirstIndex(client, c);
        assert Shared(l, j);
      }
    }
    if r.None? && (l.prio == [] || !InGroup(l, |l.prio| - 1)) {
      AllClosed(l);
      forall c | c in usable && c in client ensures c !in server {
        if c in server {
          assert Shared(l, FirstIndex(l.prio, c));
        }
      }
    }
  }
}
