/**
 What uninstalls undo and allow: an install followed by an uninstall restores the account, and the tracked modules can
 all be uninstalled exactly when their dependencies have no cycle.
 */
module ModuleProgress {
  import opened Basics
  import opened Cosmos
  import opened ModuleTypes
  import opened Whitelist
  import opened Dependents
  import opened ModuleManager
  import opened InstallChecks
  import opened ModuleRuns
  import opened ModuleWhitelist
  import opened InstallOrder

  // ------------------------------------------------------------------ uninstalling

  /** Nothing depends on the module, its data can be read, and the registry knows that data. */
  ghost predicate Removable(st: Storage, chain: Chain, w: World, id: ModuleId) {
    && DependentsOf(st.dependents, id) == {}
    && id in st.modules && DataAt(w, st.modules[id]).Some?
    && var data := DataAt(w, st.modules[id]).value;
       && Lookup(chain, Exactly(data.name, data.version)).Some?
       && (ShouldBeWhitelisted(data.name, Lookup(chain, Exactly(data.name, data.version)).value.reference) ==>
             st.modules[id] in st.whitelist)
  }

  /**
   An uninstall succeeds exactly for a removable module. It takes out the module, its entries in the index, its own set,
   and its address if the registry lists its kind; everything else stays.
   */
  lemma UninstallIff(st: Storage, chain: Chain, w: World, id: ModuleId)
    requires NoDup(st.whitelist) && |st.whitelist| <= 15
    ensures var r := UninstallModule(st, chain, w, id);
            && (r.Ok? <==> Removable(st, chain, w, id))
            && (r.Ok? ==>
                  && r.value.modules == st.modules - {id}
                  && (forall d, m :: m in DependentsOf(r.value.dependents, d) <==>
                        m in DependentsOf(st.dependents, d) && !(m == id && d in DepIds(DepsAt(w, st.modules[id]))))
                  && r.value.migrateContext == st.migrateContext && r.value.installContext == st.installContext
                  && r.value.callingToAsAdmin == st.callingToAsAdmin
                  && forall a :: a in r.value.whitelist <==> a in st.whitelist && !(a == st.modules[id] && Delisted(st, chain, w, id)))
  {
    if DependentsOf(st.dependents, id) == {} && id in st.modules && DataAt(w, st.modules[id]).Some? {
      var a := st.modules[id];
      RemoveAsDependentExact(st.dependents - {id}, id, DepsAt(w, a));
      assert forall d :: DependentsOf(st.dependents - {id}, d) == DependentsOf(st.dependents, d);
      UpdateWhitelistIff(st.whitelist, [], [a]);
      assert st.whitelist + [] == st.whitelist && forall x :: x in [a] <==> x == a;
    }
  }

  /** The registry lists what is found at the module's address as a kind that belongs on the whitelist. */
  ghost predicate Delisted(st: Storage, chain: Chain, w: World, id: ModuleId) {
    && id in st.modules && DataAt(w, st.modules[id]).Some?
    && var data := DataAt(w, st.modules[id]).value;
       && Lookup(chain, Exactly(data.name, data.version)).Some?
       && ShouldBeWhitelisted(data.name, Lookup(chain, Exactly(data.name, data.version)).value.reference)
  }

  // ------------------------------------------------------------------ install, then uninstall

  /**
   An app cannot be installed again after it has been uninstalled, at whatever version has the same code: its contract is
   still at the derived address.
   */
  lemma ReinstallIsProhibited(s: Sys, chain: Chain, cfg: InstallConfig, again: InstallConfig, after: World, later: Chain)
    requires NoDup(s.st.whitelist) && Completes(s, chain, [cfg], after)
    requires Lookup(chain, cfg.info).Some? && Lookup(chain, cfg.info).value.reference.App?
    requires again.info.id == cfg.info.id && Lookup(later, again.info).Some? && later.derived == chain.derived
    requires CodeOf(Lookup(later, again.info).value.reference) == CodeOf(Lookup(chain, cfg.info).value.reference)
    requires UninstallModule(Step(s, Install(chain, [cfg], after)).st, later, after, cfg.info.id).Ok?
    ensures var t := Step(s, Install(chain, [cfg], after));
            var u := UninstallModule(t.st, later, after, cfg.info.id).value;
            InstallModules(u, later, after, [again]) == Err(ProhibitedReinstall)
  {
    var m := Lookup(chain, cfg.info).value;
    var t := Step(s, Install(chain, [cfg], after));
    var u := UninstallModule(t.st, later, after, cfg.info.id).value;
    InstallOkIff(s.st, chain, s.w, [cfg]);
    assert cfg in [cfg] && Installable(s.st.modules, chain, s.w, cfg);
    InstalledIsGenuine(s, chain, [cfg], after, cfg);
    assert chain.derived[m.reference.codeId] in after;
    var n := Lookup(later, again.info).value;
    PlaceErrors(u.modules, later, after, n, again.hasInitMsg);
    assert [again][1..] == [] && ResolveAll(later, [again][1..]) == Some([]) && [n] + [] == [n];
    assert ResolveAll(later, [again]) == Some([n]);
  }

  /** Uninstalling is refused for dependents exactly when an installed tracked module declares the module. */
  lemma UninstallRefusedIff(s: Sys, chain: Chain, id: ModuleId)
    requires Valid(s)
    ensures var r := UninstallModule(s.st, chain, s.w, id);
            (r.Err? && r.error.ModuleHasDependents?) <==>
              exists m :: m in s.st.modules && Tracked(s.kinds[m]) && id in DepIds(DepsAt(s.w, s.st.modules[m]))
  {
    forall m
      ensures m in DependentsOf(s.st.dependents, id) <==>
              m in s.st.modules && Tracked(s.kinds[m]) && id in DepIds(DepsAt(s.w, s.st.modules[m]))
    {
      IndexExactIff(s, id, m);
    }
    if DependentsOf(s.st.dependents, id) != {} {
      var m :| m in DependentsOf(s.st.dependents, id);
    }
  }

  /** A batch of one overwrites nothing, so its install is a step of the runs. */
  lemma InstallOneKeepsValid(s: Sys, chain: Chain, cfg: InstallConfig, after: World)
    requires Valid(s) && Untouched(s, after, {})
    requires InstallModules(s.st, chain, s.w, [cfg]).Ok?
    requires RegisterDependencies(InstallModules(s.st, chain, s.w, [cfg]).value, after).Ok?
    ensures Valid(Step(s, Install(chain, [cfg], after)))
  {
    InstallKeepsValid(s, chain, [cfg], after);
  }

  /** Adding a module that nothing declared before: only the new module itself can depend on it. */
  lemma FreshHasNoDependents(s: Sys, chain: Chain, cfg: InstallConfig, after: World, m: ModuleId)
    requires Valid(s) && Untouched(s, after, {})
    requires InstallModules(s.st, chain, s.w, [cfg]).Ok?
    requires RegisterDependencies(InstallModules(s.st, chain, s.w, [cfg]).value, after).Ok?
    requires m != cfg.info.id
    ensures var t := Step(s, Install(chain, [cfg], after));
            m !in DependentsOf(t.st.dependents, cfg.info.id)
  {
    var t := Step(s, Install(chain, [cfg], after));
    InstallOneKeepsValid(s, chain, cfg, after);
    InstallOneEffect(s, chain, cfg);
    IndexExactIff(t, cfg.info.id, m);
    var deps := Declared(s, m);
    assert AllMet(s.st.modules, s.w, deps);
    forall i | 0 <= i < |deps|
      ensures deps[i].id != cfg.info.id
    {
      assert DependencyMet(s.st.modules, s.w, deps[i]);
    }
    assert Declared(t, m) == deps;
  }

  /** A batch of one: one new module, with its own reference. */
  lemma InstallOneEffect(s: Sys, chain: Chain, cfg: InstallConfig)
    requires s.kinds.Keys == s.st.modules.Keys
    requires InstallModules(s.st, chain, s.w, [cfg]).Ok?
    ensures var pending := InstallModules(s.st, chain, s.w, [cfg]).value;
            var id := cfg.info.id;
            && Lookup(chain, cfg.info).Some? && Lookup(chain, cfg.info).value.id == id
            && id !in s.st.modules && pending.modules.Keys == s.st.modules.Keys + {id}
            && pending.modules - {id} == s.st.modules
            && |pending.installContext| == 1 && pending.installContext[0].m == Lookup(chain, cfg.info).value
            && RecordKinds(s.kinds, pending.installContext) == s.kinds[id := Lookup(chain, cfg.info).value.reference]
            && pending.dependents == s.st.dependents
  {
    InstallModulesEffect(s.st, chain, s.w, [cfg]);
    var context := InstallModules(s.st, chain, s.w, [cfg]).value.installContext;
    assert Lookup(chain, [cfg][0].info) == Some(context[0].m);
    assert context == [context[0]] && context[1..] == [];
    assert ContextIds(context) == {context[0].m.id};
  }

  /** What appending and then removing an address leaves of a list that did not contain it. */
  lemma AppendThenRemove(list: seq<Addr>, a: Addr)
    requires NoDup(list) && a !in list && |list| < WHITELIST_SIZE_LIMIT
    ensures UpdateWhitelist(list + [a], [], [a]) == Ok(list)
  {
    NoDupConcat(list, [a]);
    UpdateWhitelistIff(list + [a], [], [a]);
    assert list + [a] + [] == list + [a];
    FilterConcat(list, [a], x => x !in [a]);
    FilterAll(list, x => x !in [a]);
    assert [a][1..] == [] && a in [a];
    assert list + [] == list;
  }

  /** The whitelist after installing one module. */
  lemma InstallOneWhitelist(s: Sys, chain: Chain, cfg: InstallConfig) returns (a: Addr)
    requires s.kinds.Keys == s.st.modules.Keys && WhitelistMatches(s)
    requires InstallModules(s.st, chain, s.w, [cfg]).Ok?
    ensures var pending := InstallModules(s.st, chain, s.w, [cfg]).value;
            var m := Lookup(chain, cfg.info).value;
            && Lookup(chain, cfg.info).Some?
            && m.id in pending.modules && pending.modules[m.id] == a
            && pending.whitelist == s.st.whitelist + (if ShouldBeWhitelisted(m.id, m.reference) then [a] else [])
            && NoDup(pending.whitelist) && |pending.whitelist| <= WHITELIST_SIZE_LIMIT
  {
    InstallOneEffect(s, chain, cfg);
    var pending := InstallModules(s.st, chain, s.w, [cfg]).value;
    var account := InstallSaved(s, chain, [cfg]);
    a := account[0].1;
    assert account[1..] == [] && pending.installContext[1..] == [];
    assert ContextIds(pending.installContext[1..]) == {};
    assert [a] + [] == [a];
  }

  /**
   Installing one module and uninstalling it again restores the modules, and the index up to empty sets.
   The whitelist is restored if and only if the registry, which may have changed, classifies the module as it was
   recorded.
   */
  lemma InstallUninstallRoundTrip(s: Sys, chain: Chain, cfg: InstallConfig, after: World, later: Chain)
    requires Valid(s) && WhitelistMatches(s) && Untouched(s, after, {})
    requires InstallModules(s.st, chain, s.w, [cfg]).Ok?
    requires RegisterDependencies(InstallModules(s.st, chain, s.w, [cfg]).value, after).Ok?
    requires UninstallModule(Step(s, Install(chain, [cfg], after)).st, later, after, cfg.info.id).Ok?
    ensures var t := Step(s, Install(chain, [cfg], after));
            var u := Step(t, Uninstall(later, cfg.info.id));
            && u.st.modules == s.st.modules && u.kinds == s.kinds
            && (forall d :: DependentsOf(u.st.dependents, d) == DependentsOf(s.st.dependents, d))
            && (u.st.whitelist == s.st.whitelist
                <==> (RegistryLists(t, later, cfg.info.id) <==> Acts(t.st.modules, t.kinds, cfg.info.id)))
  {
    var id := cfg.info.id;
    var t := Step(s, Install(chain, [cfg], after));
    var u := Step(t, Uninstall(later, id));
    InstallOneKeepsValid(s, chain, cfg, after);
    UninstallKeepsValid(t, later, id);
    RoundTripModules(s, chain, cfg, after, later);
    SameModulesSameIndex(s, u);
    RoundTripWhitelist(s, chain, cfg, after, later);
  }

  lemma RoundTripModules(s: Sys, chain: Chain, cfg: InstallConfig, after: World, later: Chain)
    requires s.kinds.Keys == s.st.modules.Keys
    requires InstallModules(s.st, chain, s.w, [cfg]).Ok?
    requires RegisterDependencies(InstallModules(s.st, chain, s.w, [cfg]).value, after).Ok?
    requires UninstallModule(Step(s, Install(chain, [cfg], after)).st, later, after, cfg.info.id).Ok?
    ensures var u := Step(Step(s, Install(chain, [cfg], after)), Uninstall(later, cfg.info.id));
            u.st.modules == s.st.modules && u.kinds == s.kinds && u.w == after
  {
    InstallOneEffect(s, chain, cfg);
  }

  /** An exact index is determined by the modules, their kinds and their data. */
  lemma SameModulesSameIndex(s: Sys, u: Sys)
    requires Valid(s) && Valid(u) && u.st.modules == s.st.modules && u.kinds == s.kinds && Untouched(s, u.w, {})
    ensures forall d :: DependentsOf(u.st.dependents, d) == DependentsOf(s.st.dependents, d)
  {
    forall d, m
      ensures m in DependentsOf(u.st.dependents, d) <==> m in DependentsOf(s.st.dependents, d)
    {
      IndexExactIff(u, d, m);
      IndexExactIff(s, d, m);
    }
  }

  lemma RoundTripWhitelist(s: Sys, chain: Chain, cfg: InstallConfig, after: World, later: Chain)
    requires Valid(s) && WhitelistMatches(s)
    requires InstallModules(s.st, chain, s.w, [cfg]).Ok?
    requires RegisterDependencies(InstallModules(s.st, chain, s.w, [cfg]).value, after).Ok?
    requires UninstallModule(Step(s, Install(chain, [cfg], after)).st, later, after, cfg.info.id).Ok?
    ensures var t := Step(s, Install(chain, [cfg], after));
            var u := Step(t, Uninstall(later, cfg.info.id));
            u.st.whitelist == s.st.whitelist
            <==> (RegistryLists(t, later, cfg.info.id) <==> Acts(t.st.modules, t.kinds, cfg.info.id))
  {
    var id := cfg.info.id;
    var t := Step(s, Install(chain, [cfg], after));
    var u := Step(t, Uninstall(later, id));
    InstallOneEffect(s, chain, cfg);
    var a := InstallOneWhitelist(s, chain, cfg);
    var acting := Acts(t.st.modules, t.kinds, id);
    assert t.st.whitelist == s.st.whitelist + (if acting then [a] else []);
    if RegistryLists(t, later, id) {
      UpdateWhitelistIff(t.st.whitelist, [], [a]);
      if acting {
        NoDupConcat(s.st.whitelist, [a]);
        AppendThenRemove(s.st.whitelist, a);
      }
      assert |u.st.whitelist| == |t.st.whitelist| - 1;
    }
  }

  /**
   An app or adapter can be uninstalled right after its install exactly when it does not depend on itself and the
   registry, which may have changed, still knows its version. Modules and index are then as before, and the whitelist
   if and only if the registry still lists it as an app or adapter (or as the IBC client).
   */
  lemma AppRoundTripRestoresAll(s: Sys, chain: Chain, cfg: InstallConfig, after: World, later: Chain)
    requires Valid(s) && WhitelistMatches(s) && Untouched(s, after, {})
    requires InstallModules(s.st, chain, s.w, [cfg]).Ok?
    requires RegisterDependencies(InstallModules(s.st, chain, s.w, [cfg]).value, after).Ok?
    requires var r := Lookup(chain, cfg.info).value.reference;
             Lookup(chain, cfg.info).Some? && (r.App? || r.Adapter?)
    ensures var t := Step(s, Install(chain, [cfg], after));
            var m := Lookup(chain, cfg.info).value;
            var now := Lookup(later, Exactly(m.id, m.version));
            var u := UninstallModule(t.st, later, after, m.id);
            && (u.Ok? <==> m.id !in DepIds(Declared(t, m.id)) && now.Some?)
            && (u.Ok? ==>
                  && u.value.modules == s.st.modules
                  && (forall d :: DependentsOf(u.value.dependents, d) == DependentsOf(s.st.dependents, d))
                  && (u.value.whitelist == s.st.whitelist <==> ShouldBeWhitelisted(m.id, now.value.reference)))
  {
    var t := Step(s, Install(chain, [cfg], after));
    AppAfterInstall(s, chain, cfg, after);
    FreshUninstallIff(s, chain, cfg, after, later);
    GenuineClassified(t, later, Lookup(chain, cfg.info).value);
    if UninstallModule(t.st, later, after, cfg.info.id).Ok? {
      InstallUninstallRoundTrip(s, chain, cfg, after, later);
    }
  }

  /** A newly installed app or adapter is genuine, acts, and is on the whitelist. */
  lemma AppAfterInstall(s: Sys, chain: Chain, cfg: InstallConfig, after: World)
    requires Valid(s) && WhitelistMatches(s) && Untouched(s, after, {})
    requires InstallModules(s.st, chain, s.w, [cfg]).Ok?
    requires RegisterDependencies(InstallModules(s.st, chain, s.w, [cfg]).value, after).Ok?
    requires var r := Lookup(chain, cfg.info).value.reference;
             Lookup(chain, cfg.info).Some? && (r.App? || r.Adapter?)
    ensures var t := Step(s, Install(chain, [cfg], after));
            var m := Lookup(chain, cfg.info).value;
            && t.w == after && m.id == cfg.info.id && m.id in t.st.modules
            && DataAt(after, t.st.modules[m.id]).Some?
            && DataAt(after, t.st.modules[m.id]).value.name == m.id
            && DataAt(after, t.st.modules[m.id]).value.version == m.version
            && Acts(t.st.modules, t.kinds, m.id) && t.st.modules[m.id] in t.st.whitelist
  {
    InstallOneEffect(s, chain, cfg);
    InstalledIsGenuine(s, chain, [cfg], after, cfg);
    var a := InstallOneWhitelist(s, chain, cfg);
  }

  /** The registry classifies a module with genuine data by what it lists for the module's own version. */
  lemma GenuineClassified(t: Sys, later: Chain, m: Module)
    requires m.id in t.st.modules && DataAt(t.w, t.st.modules[m.id]).Some?
    requires DataAt(t.w, t.st.modules[m.id]).value.name == m.id && DataAt(t.w, t.st.modules[m.id]).value.version == m.version
    ensures var now := Lookup(later, Exactly(m.id, m.version));
            RegistryLists(t, later, m.id) <==> now.Some? && ShouldBeWhitelisted(m.id, now.value.reference)
  {}

  /**
   Right after its own install a module can be uninstalled exactly when it does not depend on itself, its data can be
   read, the registry knows that data, and the registry lists it only if it is on the whitelist.
   */
  lemma FreshUninstallIff(s: Sys, chain: Chain, cfg: InstallConfig, after: World, later: Chain)
    requires Valid(s) && WhitelistMatches(s) && Untouched(s, after, {})
    requires InstallModules(s.st, chain, s.w, [cfg]).Ok?
    requires RegisterDependencies(InstallModules(s.st, chain, s.w, [cfg]).value, after).Ok?
    ensures var t := Step(s, Install(chain, [cfg], after));
            var data := DataAt(after, GetOr(t.st.modules, cfg.info.id, ""));
            UninstallModule(t.st, later, after, cfg.info.id).Ok? <==>
              && cfg.info.id !in DepIds(Declared(t, cfg.info.id))
              && data.Some?
              && Lookup(later, Exactly(data.value.name, data.value.version)).Some?
              && (RegistryLists(t, later, cfg.info.id) ==> GetOr(t.st.modules, cfg.info.id, "") in t.st.whitelist)
  {
    var id := cfg.info.id;
    var t := Step(s, Install(chain, [cfg], after));
    InstallOneKeepsValid(s, chain, cfg, after);
    InstallOneEffect(s, chain, cfg);
    var a := InstallOneWhitelist(s, chain, cfg);
    forall m
      ensures m in DependentsOf(t.st.dependents, id) <==> m == id && id in DepIds(Declared(t, id))
    {
      IndexExactIff(t, id, m);
      if m != id {
        FreshHasNoDependents(s, chain, cfg, after, m);
      }
    }
    UpdateWhitelistIff(t.st.whitelist, [], [a]);
  }

  // ------------------------------------------------------------------ uninstalling everything

  ghost function TrackedModules(s: Sys): set<ModuleId> {
    set m | m in s.st.modules && m in s.kinds && Tracked(s.kinds[m])
  }

  /** m and d are installed and tracked, and m declares d. */
  ghost predicate DependsOn(s: Sys, m: ModuleId, d: ModuleId) {
    m in TrackedModules(s) && d in TrackedModules(s) && d in DepIds(Declared(s, m))
  }

  /** Each module of the path is depended on by the next one. */
  ghost predicate Path(s: Sys, p: seq<ModuleId>) {
    && p != []
    && p[0] in TrackedModules(s)
    && forall i :: 0 <= i < |p| - 1 ==> DependsOn(s, p[i + 1], p[i])
  }

  ghost predicate Cycle(s: Sys, p: seq<ModuleId>) {
    Path(s, p) && |p| >= 2 && p[0] == p[|p| - 1]
  }

  ghost predicate Cyclic(s: Sys) {
    exists p :: Cycle(s, p)
  }

  ghost predicate Free(s: Sys, m: ModuleId) {
    m in TrackedModules(s) && DependentsOf(s.st.dependents, m) == {}
  }

  /** When every tracked module has a dependent there are paths of every length. */
  lemma {:induction false} LongPath(s: Sys, n: nat) returns (p: seq<ModuleId>)
    requires Valid(s) && TrackedModules(s) != {} && forall m :: !Free(s, m)
    ensures Path(s, p) && |p| == n + 1
    decreases n
  {
    if n == 0 {
      var m :| m in TrackedModules(s);
      p := [m];
    } else {
      var q := LongPath(s, n - 1);
      var last := q[|q| - 1];
      assert last in TrackedModules(s) by {
        if |q| > 1 {
          assert DependsOn(s, q[|q| - 2 + 1], q[|q| - 2]);
        }
      }
      assert !Free(s, last);
      var m :| m in DependentsOf(s.st.dependents, last);
      IndexExactIff(s, last, m);
      p := q + [m];
      forall i | 0 <= i < |p| - 1
        ensures DependsOn(s, p[i + 1], p[i])
      {
        if i < |q| - 1 {
          assert DependsOn(s, q[i + 1], q[i]);
        }
      }
    }
  }

  lemma PathTracked(s: Sys, p: seq<ModuleId>, i: nat)
    requires Path(s, p) && i < |p|
    ensures p[i] in TrackedModules(s)
  {
    if i > 0 {
      assert DependsOn(s, p[i - 1 + 1], p[i - 1]);
    }
  }

  lemma SmallerSet(a: set<ModuleId>, b: set<ModuleId>)
    requires a <= b
    ensures |a| <= |b|
  {
    assert b == a + (b - a);
  }

  /** By counting, a path with more modules than there are comes back to where it was. */
  lemma LongPathHasCycle(s: Sys, p: seq<ModuleId>)
    requires Path(s, p) && |p| > |TrackedModules(s)|
    ensures Cyclic(s)
  {
    if NoDup(p) {
      NoDupSetSize(p);
      forall m | m in p
        ensures m in TrackedModules(s)
      {
        var i :| 0 <= i < |p| && p[i] == m;
        PathTracked(s, p, i);
      }
      SmallerSet((set m | m in p), TrackedModules(s));
      assert false;
    }
    var i, j :| 0 <= i < j < |p| && p[i] == p[j];
    PathTracked(s, p, i);
    var q := p[i..j + 1];
    forall k | 0 <= k < |q| - 1
      ensures DependsOn(s, q[k + 1], q[k])
    {
      assert DependsOn(s, p[i + k + 1], p[i + k]);
    }
    assert Cycle(s, q);
  }

  /** Some tracked module passes the dependents guard unless there is a cycle. */
  lemma AcyclicHasFree(s: Sys)
    requires Valid(s) && !Cyclic(s) && TrackedModules(s) != {}
    ensures exists m :: Free(s, m)
  {
    if forall m :: !Free(s, m) {
      var p := LongPath(s, |TrackedModules(s)|);
      LongPathHasCycle(s, p);
    }
  }

  /** Uninstalls in sequence, each with the state of the registry at that time. */
  function UninstallAll(s: Sys, requests: seq<(Chain, ModuleId)>): Sys
    decreases requests
  {
    if requests == [] then s else UninstallAll(Step(s, Uninstall(requests[0].0, requests[0].1)), requests[1..])
  }

  /** The module's data can be read and the registry still classifies it as it was recorded. */
  ghost predicate Readable(s: Sys, chain: Chain, m: ModuleId) {
    && LoadModuleData(s.st.modules, s.w, m).Ok?
    && (var data := LoadModuleData(s.st.modules, s.w, m).value;
        Lookup(chain, Exactly(data.name, data.version)).Some?)
    && (RegistryLists(s, chain, m) <==> Acts(s.st.modules, s.kinds, m))
  }

  lemma FreeUninstallSucceeds(s: Sys, chain: Chain, m: ModuleId)
    requires Valid(s) && WhitelistMatches(s) && Free(s, m) && Readable(s, chain, m)
    ensures UninstallModule(s.st, chain, s.w, m).Ok?
  {
    UpdateWhitelistIff(s.st.whitelist, [], [s.st.modules[m]]);
  }

  /** A free, readable module is uninstalled, and nothing else about the tracked modules changes. */
  lemma UninstallFree(s: Sys, chain: Chain, m: ModuleId)
    requires Valid(s) && WhitelistMatches(s) && Free(s, m) && Readable(s, chain, m)
    ensures var t := Step(s, Uninstall(chain, m));
            && Valid(t) && WhitelistMatches(t)
            && TrackedModules(t) == TrackedModules(s) - {m}
            && (forall n :: n != m && Readable(s, chain, n) ==> Readable(t, chain, n))
            && (forall n :: n != m ==> Declared(t, n) == Declared(s, n))
  {
    FreeUninstallSucceeds(s, chain, m);
    UninstallKeepsValid(s, chain, m);
    UninstallWhitelistIff(s, chain, m);
    var t := Step(s, Uninstall(chain, m));
    assert t.st.modules == s.st.modules - {m} && t.kinds == s.kinds - {m} && t.w == s.w;
    SmallerSystem(s, t, chain, m);
  }

  /** Leaving out one module changes nothing for the others. */
  lemma SmallerSystem(s: Sys, t: Sys, chain: Chain, m: ModuleId)
    requires t.st.modules == s.st.modules - {m} && t.kinds == s.kinds - {m} && t.w == s.w
    ensures TrackedModules(t) == TrackedModules(s) - {m}
    ensures forall n :: n != m && Readable(s, chain, n) ==> Readable(t, chain, n)
    ensures forall n :: n != m ==> Declared(t, n) == Declared(s, n)
  {}

  lemma CycleGrows(s: Sys, t: Sys, m: ModuleId)
    requires Cyclic(t)
    requires TrackedModules(t) == TrackedModules(s) - {m}
    requires forall n :: n != m ==> Declared(t, n) == Declared(s, n)
    ensures Cyclic(s)
  {
    var p :| Cycle(t, p);
    forall i | 0 <= i < |p| - 1
      ensures DependsOn(s, p[i + 1], p[i])
    {
      assert DependsOn(t, p[i + 1], p[i]);
    }
    assert Cycle(s, p);
  }

  /** Without a cycle some module can be uninstalled, and what is left is as well-behaved and smaller. */
  lemma TakeFree(s: Sys, chain: Chain) returns (m: ModuleId)
    requires Valid(s) && WhitelistMatches(s) && !Cyclic(s) && TrackedModules(s) != {}
    requires forall m :: m in TrackedModules(s) ==> Readable(s, chain, m)
    ensures var t := Step(s, Uninstall(chain, m));
            && Valid(t) && WhitelistMatches(t) && !Cyclic(t)
            && (forall m :: m in TrackedModules(t) ==> Readable(t, chain, m))
            && |TrackedModules(s)| == |TrackedModules(t)| + 1
  {
    AcyclicHasFree(s);
    m :| Free(s, m);
    UninstallFree(s, chain, m);
    SmallerAcyclic(s, Step(s, Uninstall(chain, m)), m);
  }

  lemma SmallerAcyclic(s: Sys, t: Sys, m: ModuleId)
    requires !Cyclic(s) && m in TrackedModules(s)
    requires TrackedModules(t) == TrackedModules(s) - {m}
    requires forall n :: n != m ==> Declared(t, n) == Declared(s, n)
    ensures !Cyclic(t) && |TrackedModules(s)| == |TrackedModules(t)| + 1
  {
    if Cyclic(t) {
      CycleGrows(s, t, m);
    }
    assert TrackedModules(s) == TrackedModules(t) + {m};
  }

  /** Without a cycle, uninstalling free modules one after the other empties the tracked modules. */
  lemma {:induction false} EmptyAcyclic(s: Sys, chain: Chain) returns (requests: seq<(Chain, ModuleId)>)
    requires Valid(s) && WhitelistMatches(s) && !Cyclic(s)
    requires forall m :: m in TrackedModules(s) ==> Readable(s, chain, m)
    ensures TrackedModules(UninstallAll(s, requests)) == {} && |requests| == |TrackedModules(s)|
    decreases |TrackedModules(s)|
  {
    if TrackedModules(s) == {} {
      requests := [];
    } else {
      var m := TakeFree(s, chain);
      var rest := EmptyAcyclic(Step(s, Uninstall(chain, m)), chain);
      requests := [(chain, m)] + rest;
    }
  }

  /** No uninstall ever removes a module of a cycle. */
  lemma CycleSurvives(s: Sys, p: seq<ModuleId>, chain: Chain, id: ModuleId)
    requires Valid(s) && Cycle(s, p)
    ensures Cycle(Step(s, Uninstall(chain, id)), p)
  {
    var t := Step(s, Uninstall(chain, id));
    if UninstallModule(s.st, chain, s.w, id).Ok? {
      forall i | 0 <= i < |p|
        ensures p[i] != id
      {
        var j := if i == |p| - 1 then 0 else i;
        assert DependsOn(s, p[j + 1], p[j]);
        IndexExactIff(s, p[j], p[j + 1]);
      }
      PathTracked(s, p, 0);
      assert p[0] in TrackedModules(t);
      forall i | 0 <= i < |p| - 1
        ensures DependsOn(t, p[i + 1], p[i])
      {
        assert DependsOn(s, p[i + 1], p[i]);
        assert p[i] != id && p[i + 1] != id;
        assert Declared(t, p[i + 1]) == Declared(s, p[i + 1]);
      }
    }
  }

  /** Whatever the registry answers from one uninstall to the next. */
  lemma {:induction false} CycleStays(s: Sys, p: seq<ModuleId>, requests: seq<(Chain, ModuleId)>)
    requires Valid(s) && Cycle(s, p)
    ensures Cycle(UninstallAll(s, requests), p)
    decreases requests
  {
    if requests != [] {
      UninstallKeepsValid(s, requests[0].0, requests[0].1);
      CycleSurvives(s, p, requests[0].0, requests[0].1);
      CycleStays(Step(s, Uninstall(requests[0].0, requests[0].1)), p, requests[1..]);
    }
  }

  /**
   The tracked modules can all be uninstalled, in some order, if and only if they have no cycle. The chain at which they
   are readable is only needed to uninstall them; a cycle stays under any registry.
   */
  lemma EmptyableIff(s: Sys, chain: Chain)
    requires Valid(s) && WhitelistMatches(s)
    requires forall m :: m in TrackedModules(s) ==> Readable(s, chain, m)
    ensures (exists requests :: TrackedModules(UninstallAll(s, requests)) == {}) <==> !Cyclic(s)
  {
    if Cyclic(s) {
      var p :| Cycle(s, p);
      forall requests
        ensures TrackedModules(UninstallAll(s, requests)) != {}
      {
        CycleStays(s, p, requests);
      }
    } else {
      var requests := EmptyAcyclic(s, chain);
    }
  }
}
