/**
 Choosing the next version of an account and walking to the newest one, and deciding whether an
 upgrade is breaking. `listed` is the answer of the registry's module list.
 */
module UpgradePath {
  import opened Basics
  import opened Semver

  function MinVersion(s: seq<Version>): (r: Version)
    requires s != []
    ensures r in s
    ensures forall v :: v in s ==> VersionLeq(r, v)
  {
    VersionLessStrictTotal();
    if |s| == 1 then s[0]
    else
      var m := MinVersion(s[1..]);
      assert forall v :: v in s ==> v == s[0] || v in s[1..];
      if VersionLess(m, s[0]) then m else s[0]
  }

  function MaxVersion(s: seq<Version>): (r: Version)
    requires s != []
    ensures r in s
    ensures forall v :: v in s ==> VersionLeq(v, r)
  {
    VersionLessStrictTotal();
    if |s| == 1 then s[0]
    else
      var m := MaxVersion(s[1..]);
      assert forall v :: v in s ==> v == s[0] || v in s[1..];
      if VersionLess(s[0], m) then m else s[0]
  }

  /** The listed versions above the current one. */
  function Newer(cur: Version, listed: seq<Version>): seq<Version> {
    Filter(listed, v => VersionLess(cur, v))
  }

  /** The newer versions that `^cur` does not accept. */
  function NonCompatible(cur: Version, listed: seq<Version>): seq<Version> {
    Filter(Newer(cur, listed), v => !CaretMatches(cur, v))
  }

  /**
   The version `upgrade_next_module_version` selects. That the filtered list handed to `MaxVersion`
   in the first case is never empty is the `unwrap` of the source.
   */
  function NextVersion(cur: Version, listed: seq<Version>): (r: Option<Version>)
    ensures r.None? <==> forall v :: v in listed ==> !VersionLess(cur, v)
    ensures r.Some? ==> r.value in listed && VersionLess(cur, r.value)
  {
    var newer := Newer(cur, listed);
    var nonCompatible := NonCompatible(cur, listed);
    if nonCompatible != [] then
      var lowest := MinVersion(nonCompatible);
      assert CaretMatches(lowest, lowest);
      var candidates := Filter(nonCompatible, v => CaretMatches(lowest, v));
      assert lowest in candidates;
      Some(MaxVersion(candidates))
    else
      var possible := Filter(newer, v => v != cur);
      if possible == [] then
        assert forall v :: v in listed && VersionLess(cur, v) ==> v in possible by { VersionLessStrictTotal(); }
        None
      else Some(MaxVersion(possible))
  }

  /** The version is listed, newer than the current one, and not accepted by `^cur`. */
  ghost predicate Breaking(cur: Version, listed: seq<Version>, v: Version) {
    v in listed && VersionLess(cur, v) && !CaretMatches(cur, v)
  }

  /** The lowest version that would break, and the highest of those that it accepts. */
  ghost predicate EntersLowest(cur: Version, listed: seq<Version>, lowest: Version, next: Version) {
    && Breaking(cur, listed, lowest) && (forall w :: Breaking(cur, listed, w) ==> VersionLeq(lowest, w))
    && Breaking(cur, listed, next) && CaretMatches(lowest, next)
    && forall w :: Breaking(cur, listed, w) && CaretMatches(lowest, w) ==> VersionLeq(w, next)
  }

  /**
   The selected version, for all versions: where something newer would break, the highest of those compatible with the
   lowest of them; otherwise the newest.
   */
  lemma NextVersionRule(cur: Version, listed: seq<Version>, next: Version)
    ensures NextVersion(cur, listed) == Some(next) <==>
            if exists v :: Breaking(cur, listed, v) then exists lowest :: EntersLowest(cur, listed, lowest, next)
            else next in listed && VersionLess(cur, next) && forall w :: w in listed ==> VersionLeq(w, next)
  {
    BreakingMembers(cur, listed);
    if exists v :: Breaking(cur, listed, v) {
      LowestRule(cur, listed, next);
    } else {
      NewestRule(cur, listed, next);
    }
  }

  lemma BreakingMembers(cur: Version, listed: seq<Version>)
    ensures forall v :: v in NonCompatible(cur, listed) <==> Breaking(cur, listed, v)
    ensures NonCompatible(cur, listed) != [] <==> exists v :: Breaking(cur, listed, v)
  {
    if NonCompatible(cur, listed) == [] {
      forall v
        ensures !Breaking(cur, listed, v)
      {
        assert v !in NonCompatible(cur, listed);
      }
    } else {
      assert NonCompatible(cur, listed)[0] in NonCompatible(cur, listed);
    }
  }

  lemma LowestRule(cur: Version, listed: seq<Version>, next: Version)
    requires NonCompatible(cur, listed) != []
    ensures NextVersion(cur, listed) == Some(next) <==> exists lowest :: EntersLowest(cur, listed, lowest, next)
  {
    BreakingMembers(cur, listed);
    var lowest, chosen := NextIsHighest(cur, listed);
    assert EntersLowest(cur, listed, lowest, chosen);
    forall other, rival | EntersLowest(cur, listed, other, rival)
      ensures rival == chosen
    {
      SameVersion(other, lowest);
      SameVersion(rival, chosen);
    }
  }

  lemma SameVersion(a: Version, b: Version)
    requires VersionLeq(a, b) && VersionLeq(b, a)
    ensures a == b
  {
    VersionLessStrictTotal();
  }

  lemma NewestRule(cur: Version, listed: seq<Version>, next: Version)
    requires NonCompatible(cur, listed) == []
    ensures NextVersion(cur, listed) == Some(next) <==>
            next in listed && VersionLess(cur, next) && forall w :: w in listed ==> VersionLeq(w, next)
  {
    var possible := Filter(Newer(cur, listed), v => v != cur);
    forall v
      ensures v in possible <==> v in listed && VersionLess(cur, v)
    {
      VersionLessStrictTotal();
    }
    if possible == [] {
      assert next !in possible;
    } else {
      var newest := MaxVersion(possible);
      assert NextVersion(cur, listed) == Some(newest);
      forall w | w in listed
        ensures VersionLeq(w, newest)
      {
        OlderOrNewer(cur, w, newest);
      }
      if next in listed && VersionLess(cur, next) && forall w :: w in listed ==> VersionLeq(w, next) {
        SameVersion(next, newest);
      }
    }
  }

  lemma OlderOrNewer(cur: Version, w: Version, newest: Version)
    requires VersionLess(cur, newest) && (VersionLess(cur, w) ==> VersionLeq(w, newest))
    ensures VersionLeq(w, newest)
  {
    VersionLessStrictTotal();
  }

  ghost function Ahead(cur: Version, listed: seq<Version>): set<Version> {
    set v | v in listed && VersionLess(cur, v)
  }

  /** The versions the upgrade loop passes through, in order. */
  function Walk(cur: Version, listed: seq<Version>): seq<Version>
    decreases Ahead(cur, listed)
  {
    match NextVersion(cur, listed)
    case None => []
    case Some(v) =>
      WalkShrinks(cur, v, listed);
      [v] + Walk(v, listed)
  }

  lemma WalkShrinks(cur: Version, next: Version, listed: seq<Version>)
    requires next in listed && VersionLess(cur, next)
    ensures Ahead(next, listed) < Ahead(cur, listed)
  {
    VersionLessStrictTotal();
    assert next in Ahead(cur, listed) && next !in Ahead(next, listed);
  }

  /** Each element is above its predecessor, the first one above cur. */
  ghost predicate Climbs(cur: Version, path: seq<Version>) {
    forall i :: 0 <= i < |path| ==> VersionLess(Arrival(cur, path[..i]), path[i])
  }

  function Arrival(cur: Version, path: seq<Version>): Version {
    if path == [] then cur else path[|path| - 1]
  }

  /**
   For any list and any versions, pre-releases included, the walk is finite, climbs strictly through
   listed versions and arrives where nothing listed is newer; it moves exactly when something is.
   */
  lemma {:induction false} WalkReachesNewest(cur: Version, listed: seq<Version>)
    ensures var path := Walk(cur, listed);
            && Climbs(cur, path)
            && (forall v :: v in path ==> v in listed)
            && (forall v :: v in listed ==> VersionLeq(v, Arrival(cur, path)))
            && (path == [] <==> forall v :: v in listed ==> VersionLeq(v, cur))
    decreases Ahead(cur, listed)
  {
    VersionLessStrictTotal();
    match NextVersion(cur, listed)
    case None =>
    case Some(next) =>
      WalkShrinks(cur, next, listed);
      WalkReachesNewest(next, listed);
      var rest := Walk(next, listed);
      assert Walk(cur, listed) == [next] + rest;
      StepInFront(cur, next, rest);
  }

  lemma StepInFront(cur: Version, next: Version, rest: seq<Version>)
    requires VersionLess(cur, next) && Climbs(next, rest)
    ensures Climbs(cur, [next] + rest)
    ensures Arrival(cur, [next] + rest) == Arrival(next, rest)
    ensures forall v :: v in [next] + rest <==> v == next || v in rest
  {
    var path := [next] + rest;
    forall i | 0 <= i < |path|
      ensures VersionLess(Arrival(cur, path[..i]), path[i])
    {
      if i > 0 {
        assert path[i] == rest[i - 1] && path[..i] == [next] + rest[..i - 1];
        assert Arrival(cur, path[..i]) == Arrival(next, rest[..i - 1]);
      }
    }
  }

  /** The last loop of `upgrade_account`: upgrade to the selected version until there is none. */
  method UpgradeToNewest(cur: Version, listed: seq<Version>) returns (final: Version, path: seq<Version>, migrated: bool)
    ensures path == Walk(cur, listed)
    ensures final == Arrival(cur, path)
    ensures final == cur || final in listed
    ensures forall v :: v in listed ==> VersionLeq(v, final)
    ensures !migrated <==> forall v :: v in listed ==> VersionLeq(v, cur)
  {
    final, path, migrated := cur, [], false;
    ghost var whole, rest := Walk(cur, listed), Walk(cur, listed);
    while true
      invariant rest == Walk(final, listed)
      invariant whole == path + rest
      invariant final == Arrival(cur, path)
      invariant migrated <==> path != []
      decreases Ahead(final, listed)
    {
      var next := NextVersion(final, listed);
      if next.None? {
        break;
      }
      WalkShrinks(final, next.value, listed);
      rest := Walk(next.value, listed);
      MoveHead(path, next.value, rest);
      final, path, migrated := next.value, path + [next.value], true;
    }
    WalkReachesNewest(cur, listed);
  }

  /** An account's version, and its sub-accounts. */
  datatype AccountTree = AccountTree(version: Version, subs: seq<AccountTree>)

  /** Nothing listed is newer than the account or any account below it. */
  ghost predicate AllNewest(t: AccountTree, listed: seq<Version>)
    decreases t
  {
    && (forall v :: v in listed ==> VersionLeq(v, t.version))
    && forall i :: 0 <= i < |t.subs| ==> AllNewest(t.subs[i], listed)
  }

  /** Accounts, and each version in a list or as it was. */
  ghost predicate SameTree(t: AccountTree, u: AccountTree, listed: seq<Version>)
    decreases t
  {
    && (u.version == t.version || u.version in listed)
    && |u.subs| == |t.subs|
    && forall i :: 0 <= i < |t.subs| ==> SameTree(t.subs[i], u.subs[i], listed)
  }

  /**
   `upgrade_account`: the sub-accounts first, then the account itself. Every account ends at the newest version, and the
   result tells whether any of them was behind.
   */
  method UpgradeAccount(t: AccountTree, listed: seq<Version>) returns (u: AccountTree, migrated: bool)
    ensures SameTree(t, u, listed) && AllNewest(u, listed)
    ensures migrated <==> !AllNewest(t, listed)
    decreases t
  {
    migrated := false;
    var subs: seq<AccountTree> := [];
    for i := 0 to |t.subs|
      invariant |subs| == i
      invariant forall k :: 0 <= k < i ==> SameTree(t.subs[k], subs[k], listed) && AllNewest(subs[k], listed)
      invariant migrated <==> exists k :: 0 <= k < i && !AllNewest(t.subs[k], listed)
    {
      var sub, moved := UpgradeAccount(t.subs[i], listed);
      subs := subs + [sub];
      migrated := migrated || moved;
    }
    var version, path, moved := UpgradeToNewest(t.version, listed);
    u := AccountTree(version, subs);
    migrated := migrated || moved;
  }

  // ------------------------------------------------------------------ compatibility classes

  /** `^base` accepts exactly the versions of the class of base that are not below it, and few pre-releases. */
  lemma CaretIsClass(base: Version, v: Version)
    ensures CaretMatches(base, v) <==> ClassBase(base) == ClassBase(v) && VersionLeq(base, v) && PreAllowed(base, v)
  {
    ComparatorIntervals(base, v);
  }

  /** Classes are intervals of the version order. */
  lemma ClassBaseMonotone(a: Version, b: Version)
    requires Release(a) && Release(b) && VersionLess(a, b)
    ensures VersionLeq(ClassBase(a), ClassBase(b))
  {}

  ghost predicate AllReleases(listed: seq<Version>) {
    forall v :: v in listed ==> Release(v)
  }

  ghost predicate HasHigherClass(cur: Version, listed: seq<Version>) {
    exists v :: v in listed && VersionLess(ClassBase(cur), ClassBase(v))
  }

  ghost predicate NewestOfClass(v: Version, listed: seq<Version>) {
    v in listed && forall w :: w in listed && ClassBase(w) == ClassBase(v) ==> VersionLeq(w, v)
  }

  /** Among releases the non-compatible ones are those of the higher classes. */
  lemma NonCompatibleIsHigher(cur: Version, listed: seq<Version>)
    requires Release(cur) && AllReleases(listed)
    ensures forall v :: v in NonCompatible(cur, listed) <==> v in listed && VersionLess(ClassBase(cur), ClassBase(v))
  {
    VersionLessStrictTotal();
    forall v | v in listed
      ensures v in NonCompatible(cur, listed) <==> VersionLess(ClassBase(cur), ClassBase(v))
    {
      CaretIsClass(cur, v);
      if VersionLess(cur, v) {
        ClassBaseMonotone(cur, v);
      } else if v != cur {
        ClassBaseMonotone(v, cur);
      }
    }
  }

  /** A step towards a higher class enters the next listed class at its newest version. */
  lemma NextVersionEntersNextClass(cur: Version, listed: seq<Version>)
    requires Release(cur) && AllReleases(listed) && HasHigherClass(cur, listed)
    ensures var next := NextVersion(cur, listed);
            && next.Some?
            && VersionLess(ClassBase(cur), ClassBase(next.value))
            && NewestOfClass(next.value, listed)
            && (forall w :: w in listed && VersionLess(ClassBase(cur), ClassBase(w))
                    ==> VersionLeq(ClassBase(next.value), ClassBase(w)))
  {
    NonCompatibleIsHigher(cur, listed);
    var higher :| higher in listed && VersionLess(ClassBase(cur), ClassBase(higher));
    assert higher in NonCompatible(cur, listed);
    var lowest, next := NextIsHighest(cur, listed);
    CaretIsClass(lowest, next);
    forall w | w in listed && ClassBase(w) == ClassBase(next)
      ensures VersionLeq(w, next)
    {
      assert w in NonCompatible(cur, listed);
      CaretIsClass(lowest, w);
    }
    forall w | w in listed && VersionLess(ClassBase(cur), ClassBase(w))
      ensures VersionLeq(ClassBase(next), ClassBase(w))
    {
      assert w in NonCompatible(cur, listed);
      if lowest != w {
        ClassBaseMonotone(lowest, w);
      }
    }
  }

  /** With non-compatible versions, the selected one is the highest that the lowest of them is compatible with. */
  lemma NextIsHighest(cur: Version, listed: seq<Version>) returns (lowest: Version, next: Version)
    requires NonCompatible(cur, listed) != []
    ensures NextVersion(cur, listed) == Some(next)
    ensures lowest in NonCompatible(cur, listed) && next in NonCompatible(cur, listed)
    ensures CaretMatches(lowest, next)
    ensures forall w :: w in NonCompatible(cur, listed) ==> VersionLeq(lowest, w)
    ensures forall w :: w in NonCompatible(cur, listed) && CaretMatches(lowest, w) ==> VersionLeq(w, next)
  {
    var nonCompatible := NonCompatible(cur, listed);
    lowest := MinVersion(nonCompatible);
    var candidates := Filter(nonCompatible, v => CaretMatches(lowest, v));
    assert CaretMatches(lowest, lowest) && lowest in candidates;
    next := MaxVersion(candidates);
  }

  /** Without a higher class the loop takes at most one step. */
  lemma WalkWithinClass(cur: Version, listed: seq<Version>)
    requires Release(cur) && AllReleases(listed) && !HasHigherClass(cur, listed)
    ensures |Walk(cur, listed)| <= 1
  {
    VersionLessStrictTotal();
    if NextVersion(cur, listed).Some? {
      forall v | v in listed && VersionLess(cur, v)
        ensures CaretMatches(cur, v)
      {
        CaretIsClass(cur, v);
        ClassBaseMonotone(cur, v);
        assert !VersionLess(ClassBase(cur), ClassBase(v));
      }
      NoMembers(NonCompatible(cur, listed));
      var possible := Filter(Newer(cur, listed), v => v != cur);
      var next := MaxVersion(possible);
      forall v | v in listed
        ensures !VersionLess(next, v)
      {
        if VersionLess(cur, v) {
          assert v in Newer(cur, listed);
          assert v in possible;
        }
      }
      assert NextVersion(next, listed).None?;
    }
  }

  ghost function HigherClasses(cur: Version, listed: seq<Version>): set<Version> {
    set v | v in listed && VersionLess(ClassBase(cur), ClassBase(v)) :: ClassBase(v)
  }

  ghost function ClassesOf(path: seq<Version>): set<Version> {
    set v | v in path :: ClassBase(v)
  }

  ghost predicate ClassesAscend(path: seq<Version>) {
    forall i, j :: 0 <= i < j < |path| ==> VersionLess(ClassBase(path[i]), ClassBase(path[j]))
  }

  /**
   When a higher class is listed, the walk visits every listed class above the current one exactly
   once and in ascending order, each at its newest listed version.
   */
  lemma {:induction false} WalkVisitsEveryClass(cur: Version, listed: seq<Version>)
    requires Release(cur) && AllReleases(listed) && HasHigherClass(cur, listed)
    ensures var path := Walk(cur, listed);
            && ClassesOf(path) == HigherClasses(cur, listed)
            && ClassesAscend(path)
            && (forall v :: v in path ==> NewestOfClass(v, listed))
    decreases Ahead(cur, listed)
  {
    NextVersionEntersNextClass(cur, listed);
    var next := NextVersion(cur, listed).value;
    WalkShrinks(cur, next, listed);
    HigherClassesStep(cur, next, listed);
    var rest := Walk(next, listed);
    if HasHigherClass(next, listed) {
      WalkVisitsEveryClass(next, listed);
    } else {
      NoneNewerThanNewest(next, listed);
      assert ClassesOf(rest) == HigherClasses(next, listed);
    }
    VisitFirst(next, rest, HigherClasses(next, listed));
  }

  /** Putting a version in front of an ascending visit of higher classes. */
  lemma VisitFirst(next: Version, rest: seq<Version>, higher: set<Version>)
    requires ClassesAscend(rest) && ClassesOf(rest) == higher
    requires forall base :: base in higher ==> VersionLess(ClassBase(next), base)
    ensures ClassesAscend([next] + rest) && ClassesOf([next] + rest) == {ClassBase(next)} + higher
  {
    var path := [next] + rest;
    forall i, j | 0 <= i < j < |path|
      ensures VersionLess(ClassBase(path[i]), ClassBase(path[j]))
    {
      assert path[j] == rest[j - 1];
      if i == 0 {
        assert ClassBase(rest[j - 1]) in ClassesOf(rest);
      } else {
        assert path[i] == rest[i - 1];
      }
    }
    assert forall v :: v in path <==> v == next || v in rest;
  }

  lemma HigherClassesStep(cur: Version, next: Version, listed: seq<Version>)
    requires next in listed && VersionLess(ClassBase(cur), ClassBase(next))
    requires forall w :: w in listed && VersionLess(ClassBase(cur), ClassBase(w))
                     ==> VersionLeq(ClassBase(next), ClassBase(w))
    ensures HigherClasses(cur, listed) == {ClassBase(next)} + HigherClasses(next, listed)
  {
    VersionLessStrictTotal();
  }

  lemma NoneNewerThanNewest(next: Version, listed: seq<Version>)
    requires Release(next) && AllReleases(listed)
    requires NewestOfClass(next, listed) && !HasHigherClass(next, listed)
    ensures Walk(next, listed) == []
  {
    VersionLessStrictTotal();
    forall v | v in listed
      ensures !VersionLess(next, v)
    {
      if VersionLess(next, v) {
        ClassBaseMonotone(next, v);
        assert false;
      }
    }
    assert NextVersion(next, listed).None?;
  }

  // ------------------------------------------------------------------ breaking upgrades

  predicate OneHasPre(a: Version, b: Version) {
    a.pre != [] || b.pre != []
  }

  predicate IsUpgradeBreaking(current: Version, next: Version) {
    !CaretMatches(current, next) || (OneHasPre(next, current) && next != current)
  }

  /** An upgrade is not breaking exactly for equal versions and for a later release of the same class. */
  lemma NonBreakingIff(current: Version, next: Version)
    ensures !IsUpgradeBreaking(current, next) <==>
            || next == current
            || (Release(current) && Release(next) && ClassBase(current) == ClassBase(next) && VersionLess(current, next))
  {
    VersionLessStrictTotal();
    if Release(current) && Release(next) {
      CaretIsClass(current, next);
    }
  }

  /** Non-breaking upgrades form a partial order, so a chain of them is itself non-breaking. */
  lemma NonBreakingPartialOrder(a: Version, b: Version, c: Version)
    ensures !IsUpgradeBreaking(a, a)
    ensures !IsUpgradeBreaking(a, b) && !IsUpgradeBreaking(b, a) ==> a == b
    ensures !IsUpgradeBreaking(a, b) && !IsUpgradeBreaking(b, c) ==> !IsUpgradeBreaking(a, c)
  {
    VersionLessStrictTotal();
    NonBreakingIff(a, a);
    NonBreakingIff(a, b);
    NonBreakingIff(b, a);
    NonBreakingIff(b, c);
    NonBreakingIff(a, c);
  }

  /** Chains: from non-breaking steps to the non-breaking upgrade across the whole chain. */
  lemma {:induction false} NonBreakingChain(chain: seq<Version>)
    requires chain != []
    requires forall i :: 0 <= i < |chain| - 1 ==> !IsUpgradeBreaking(chain[i], chain[i + 1])
    ensures !IsUpgradeBreaking(chain[0], chain[|chain| - 1])
  {
    if |chain| == 1 {
      NonBreakingIff(chain[0], chain[0]);
    } else {
      var shorter := chain[1..];
      forall i | 0 <= i < |shorter| - 1
        ensures !IsUpgradeBreaking(shorter[i], shorter[i + 1])
      {
        assert !IsUpgradeBreaking(chain[i + 1], chain[i + 1 + 1]);
      }
      NonBreakingChain(shorter);
      NonBreakingPartialOrder(chain[0], chain[1], chain[|chain| - 1]);
    }
  }
}
