/** The bounded, duplicate-free list of addresses that may act for the account. */
module Whitelist {
  import opened Basics
  import opened Cosmos
  import opened ModuleTypes

  const WHITELIST_SIZE_LIMIT := 15

  /** The list after pushing the additions one by one, unless one is already in it. */
  function PushAll(list: seq<Addr>, add: seq<Addr>): Result<seq<Addr>, AccountError>
    decreases add
  {
    if add == [] then Ok(list)
    else if add[0] in list then Err(AlreadyWhitelisted(add[0]))
    else PushAll(list + [add[0]], add[1..])
  }

  /** `_update_whitelisted_modules` on the stored list. */
  function UpdateWhitelist(list: seq<Addr>, add: seq<Addr>, remove: seq<Addr>): Result<seq<Addr>, AccountError> {
    if |list| + |add| < |remove| then Err(NotWhitelisted)
    else if |list| + |add| - |remove| > WHITELIST_SIZE_LIMIT then Err(ModuleLimitReached)
    else match PushAll(list, add)
      case Err(e) => Err(e)
      case Ok(pushed) =>
        var kept := Filter(pushed, a => a !in remove);
        if |kept| != |list| + |add| - |remove| then Err(NotWhitelisted) else Ok(kept)
  }

  lemma {:induction false} PushAllIff(list: seq<Addr>, add: seq<Addr>)
    requires NoDup(list)
    ensures PushAll(list, add).Ok? <==> NoDup(list + add)
    ensures PushAll(list, add).Ok? ==> PushAll(list, add).value == list + add
    decreases add
  {
    if add == [] {
      assert list + add == list;
    } else if add[0] in list {
      var i :| 0 <= i < |list| && list[i] == add[0];
      assert (list + add)[i] == (list + add)[|list|];
    } else {
      PushAllIff(list + [add[0]], add[1..]);
      assert (list + [add[0]]) + add[1..] == list + add;
    }
  }

  /** Kept and dropped elements together are all of them. */
  lemma {:induction false} FilterSplitsLength(s: seq<Addr>, remove: seq<Addr>)
    ensures |Filter(s, a => a !in remove)| + |Filter(s, a => a in remove)| == |s|
  {
    if s != [] {
      FilterSplitsLength(s[1..], remove);
    }
  }

  lemma {:induction false} SeqSetSize(s: seq<Addr>)
    ensures |set x | x in s| <= |s|
    ensures |set x | x in s| == |s| ==> NoDup(s)
  {
    if s == [] {
      assert (set x | x in s) == {};
    } else {
      SeqSetSize(s[1..]);
      var rest := set x | x in s[1..];
      assert (set x | x in s) == rest + {s[0]};
      if s[0] in s[1..] {
        assert rest + {s[0]} == rest;
      }
    }
  }

  /** By counting, the one length comparison holds exactly when the removals are distinct members. */
  lemma KeptLengthIff(s: seq<Addr>, remove: seq<Addr>)
    requires NoDup(s)
    ensures |Filter(s, a => a !in remove)| == |s| - |remove|
            <==> NoDup(remove) && forall a :: a in remove ==> a in s
  {
    var dropped := Filter(s, a => a in remove);
    FilterSplitsLength(s, remove);
    FilterKeepsNoDup(s, a => a in remove);
    NoDupSetSize(dropped);
    var hit, all := set a | a in dropped, set a | a in remove;
    SeqSetSize(remove);
    assert hit <= all;
    if |dropped| == |remove| {
      SubsetOfEqualSize(hit, all);
      forall a | a in remove
        ensures a in s
      {
        assert a in all && a in hit;
      }
    }
    if NoDup(remove) && forall a :: a in remove ==> a in s {
      NoDupSetSize(remove);
      assert hit == all;
    }
  }

  lemma SubsetOfEqualSize(a: set<Addr>, b: set<Addr>)
    requires a <= b && |b| <= |a|
    ensures a == b
  {
    assert a + (b - a) == b;
    assert |a + (b - a)| == |a| + |b - a|;
  }

  ghost predicate AcceptableUpdate(list: seq<Addr>, add: seq<Addr>, remove: seq<Addr>) {
    && NoDup(add) && (forall a :: a in add ==> a !in list)
    && NoDup(remove) && (forall a :: a in remove ==> a in list || a in add)
    && |list| + |add| - |remove| <= 15
  }

  /** The update succeeds exactly for acceptable arguments, and then keeps order and distinctness. */
  lemma UpdateWhitelistIff(list: seq<Addr>, add: seq<Addr>, remove: seq<Addr>)
    requires NoDup(list)
    ensures var r := UpdateWhitelist(list, add, remove);
            && (r.Ok? <==> AcceptableUpdate(list, add, remove))
            && (r.Ok? ==>
                  && r.value == Filter(list + add, a => a !in remove)
                  && NoDup(r.value)
                  && |r.value| == |list| + |add| - |remove| <= 15)
  {
    PushAllIff(list, add);
    NoDupConcat(list, add);
    if NoDup(list + add) {
      KeptLengthIff(list + add, remove);
      FilterKeepsNoDup(list + add, a => a !in remove);
    }
  }

  lemma NoDupConcat(list: seq<Addr>, add: seq<Addr>)
    requires NoDup(list)
    ensures NoDup(list + add) <==> NoDup(add) && forall a :: a in add ==> a !in list
  {
    var all := list + add;
    if NoDup(all) {
      forall i, j | 0 <= i < j < |add|
        ensures add[i] != add[j]
      {
        assert all[|list| + i] != all[|list| + j];
      }
      forall a | a in add
        ensures a !in list
      {
        var j :| 0 <= j < |add| && add[j] == a;
        assert all[|list| + j] == a;
        forall i | 0 <= i < |list|
          ensures list[i] != a
        {
          assert all[i] != all[|list| + j];
        }
      }
    }
    if NoDup(add) && forall a :: a in add ==> a !in list {
      forall i, j | 0 <= i < j < |all|
        ensures all[i] != all[j]
      {
        if i < |list| <= j {
          assert add[j - |list|] in add;
        }
      }
    }
  }

  /** Which error a refused update reports, in the order the checks are made. */
  lemma UpdateWhitelistErrors(list: seq<Addr>, add: seq<Addr>, remove: seq<Addr>)
    requires NoDup(list)
    ensures var r := UpdateWhitelist(list, add, remove);
            && (r == Err(ModuleLimitReached) <==> |list| + |add| - |remove| > 15)
            && (r.Err? && r.error.AlreadyWhitelisted? <==>
                  0 <= |list| + |add| - |remove| <= 15 && !NoDup(list + add))
            && (r == Err(NotWhitelisted) <==>
                  || |list| + |add| < |remove|
                  || (|list| + |add| - |remove| <= 15 && NoDup(list + add)
                      && !(NoDup(remove) && forall a :: a in remove ==> a in list || a in add)))
  {
    PushAllIff(list, add);
    PushAllError(list, add);
    if NoDup(list + add) {
      KeptLengthIff(list + add, remove);
    }
  }

  lemma {:induction false} PushAllError(list: seq<Addr>, add: seq<Addr>)
    ensures PushAll(list, add).Err? ==> PushAll(list, add).error.AlreadyWhitelisted?
    decreases add
  {
    if add != [] && add[0] !in list {
      PushAllError(list + [add[0]], add[1..]);
    }
  }
}
