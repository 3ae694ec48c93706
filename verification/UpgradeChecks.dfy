/**
 What an upgrade demands before it migrates anything, read off the registry, the raw data of other contracts and the
 account's own storage; in particular that it never goes back to an older version.
 */
module UpgradeChecks {
  import opened Basics
  import opened Cosmos
  import opened Semver
  import opened ModuleTypes
  import opened Whitelist
  import opened Dependents
  import opened ModuleManager
  import opened ModuleUpgrades

  // ------------------------------------------------------------------ the version a module has

  /** A valid namespace: one to sixty-four characters, none of them dangerous. */
  ghost predicate ValidNamespace(namespace: string) {
    1 <= |namespace| <= 64 && forall c :: c in namespace ==> c !in {'"', '\'', '=', '>', '<', ':'}
  }

  /** The name splits at its one colon into a valid namespace and a name. */
  ghost predicate Namespaced(name: string) {
    exists namespace, rest :: name == namespace + ":" + rest && ValidNamespace(namespace) && ':' !in rest
  }

  lemma NamespacedIff(name: string)
    ensures ModuleIdFormat(name) <==> Namespaced(name)
  {
    assert forall c :: c in DANGEROUS_CHARS <==> c in {'"', '\'', '=', '>', '<'};
    if ModuleIdFormat(name) {
      var i :| 0 <= i < |name| && SplitsAt(name, i);
      var namespace, rest := name[..i], name[i + 1..];
      assert name == namespace + ":" + rest;
      assert forall j :: 0 <= j < |rest| ==> rest[j] == name[i + 1 + j];
      forall c | c in namespace
        ensures c !in {'"', '\'', '=', '>', '<', ':'}
      {
        var j :| 0 <= j < i && name[j] == c;
        assert name[j] !in DANGEROUS_CHARS && name[j] != ':';
      }
      assert ValidNamespace(namespace) && ':' !in rest;
    }
    if Namespaced(name) {
      var namespace, rest :| name == namespace + ":" + rest && ValidNamespace(namespace) && ':' !in rest;
      var i := |namespace|;
      assert name[i] == ':';
      forall j | 0 <= j < |name| && j != i
        ensures name[j] != ':'
      {
        if j < i {
          assert name[j] == namespace[j] && namespace[j] in namespace;
        } else {
          assert name[j] == rest[j - i - 1] && rest[j - i - 1] in rest;
        }
      }
      forall j | 0 <= j < i
        ensures name[j] !in DANGEROUS_CHARS
      {
        assert name[j] == namespace[j] && namespace[j] in namespace;
      }
      assert SplitsAt(name, i);
    }
  }

  /** The cw2 data is that of a module: its name is of the form namespace:name. */
  ghost predicate HasModuleCw2(w: World, a: Addr) {
    Cw2At(w, a).Some? && Namespaced(Cw2At(w, a).value.contract)
  }

  /** The module at the address has a version: its cw2 version, or else the one registered for the address. */
  ghost predicate HasVersion(chain: Chain, w: World, a: Addr) {
    HasModuleCw2(w, a) || a in chain.fallbackVersions
  }

  /** The version is not below the one the module has. */
  ghost predicate NotOlder(chain: Chain, w: World, a: Addr, v: Version) {
    if HasModuleCw2(w, a) then !VersionLess(v, Cw2At(w, a).value.version)
    else a in chain.fallbackVersions ==> !VersionLess(v, chain.fallbackVersions[a])
  }

  // ------------------------------------------------------------------ one request

  /** Every dependent is being migrated already, or can be read and accepts the version in all its requirements on id. */
  ghost predicate DependentsSupport(st: Storage, w: World, id: ModuleId, v: Version) {
    forall x :: x in DependentsOf(st.dependents, id) && (forall e :: e in st.migrateContext ==> e.id != x) ==>
      && x in st.modules && DataAt(w, st.modules[x]).Some?
      && forall dep :: dep in DataAt(w, st.modules[x]).value.dependencies && dep.id == id ==>
           forall c :: c in dep.versionReq ==> Matches(c, v)
  }

  /** What the first phase demands of one request for another module than the account. */
  ghost predicate Upgradable(st: Storage, chain: Chain, w: World, req: UpgradeRequest) {
    && req.info.id in st.modules
    && HasVersion(chain, w, st.modules[req.info.id])
    && (req.info.Exactly? ==> NotOlder(chain, w, st.modules[req.info.id], req.info.version))
    && Lookup(chain, req.info).Some?
    && var m := Lookup(chain, req.info).value;
       match m.reference
       case Adapter(a) =>
         && DependentsSupport(st, w, m.id, m.version) && DataAt(w, st.modules[m.id]).Some?
         && m.id != "" && st.modules[m.id] in chain.answering
         && a !in st.whitelist && (st.modules[m.id] in st.whitelist || st.modules[m.id] == a)
       case App(_) => DependentsSupport(st, w, m.id, m.version) && DataAt(w, st.modules[m.id]).Some?
       case Standalone(_) => req.hasMigrateMsg
       case _ => false
  }

  lemma AllMatchIff(bounds: seq<Comparator>, v: Version)
    ensures AllMatch(bounds, v) <==> forall c :: c in bounds ==> Matches(c, v)
  {
    if AllMatch(bounds, v) {
      forall c | c in bounds
        ensures Matches(c, v)
      {
        var i :| 0 <= i < |bounds| && bounds[i] == c;
      }
    }
  }

  lemma SupportsIff(modules: map<ModuleId, Addr>, w: World, x: ModuleId, id: ModuleId, v: Version)
    ensures Supports(modules, w, x, id, v) <==>
            && x in modules && DataAt(w, modules[x]).Some?
            && forall dep :: dep in DataAt(w, modules[x]).value.dependencies && dep.id == id ==>
                 forall c :: c in dep.versionReq ==> Matches(c, v)
  {
    if x in modules && DataAt(w, modules[x]).Some? {
      var deps := DataAt(w, modules[x]).value.dependencies;
      forall dep | dep in deps
        ensures AllMatch(dep.versionReq, v) <==> forall c :: c in dep.versionReq ==> Matches(c, v)
      {
        AllMatchIff(dep.versionReq, v);
      }
      if Supports(modules, w, x, id, v) {
        forall dep | dep in deps && dep.id == id
          ensures AllMatch(dep.versionReq, v)
        {
          var i :| 0 <= i < |deps| && deps[i] == dep;
        }
      }
    }
  }

  lemma MigratingIff(context: seq<MigrateEntry>, x: ModuleId)
    ensures Migrating(context, x) <==> exists e :: e in context && e.id == x
  {
    if e :| e in context && e.id == x {
      var i :| 0 <= i < |context| && context[i] == e;
    }
  }

  lemma DependentsSupportIff(st: Storage, w: World, id: ModuleId, v: Version)
    ensures MigrateAllowed(st, w, id, v) <==> DependentsSupport(st, w, id, v)
  {
    forall x
      ensures Migrating(st.migrateContext, x) <==> exists e :: e in st.migrateContext && e.id == x
      ensures Supports(st.modules, w, x, id, v) <==>
              && x in st.modules && DataAt(w, st.modules[x]).Some?
              && forall dep :: dep in DataAt(w, st.modules[x]).value.dependencies && dep.id == id ==>
                   forall c :: c in dep.versionReq ==> Matches(c, v)
    {
      MigratingIff(st.migrateContext, x);
      SupportsIff(st.modules, w, x, id, v);
    }
  }

  /** Replacing one address of a list within the bound. */
  lemma ReplaceAcceptable(list: seq<Addr>, a: Addr, was: Addr)
    requires NoDup(list) && |list| <= 15
    ensures UpdateWhitelist(list, [a], [was]).Ok? <==> a !in list && (was in list || was == a)
    ensures UpdateWhitelist(list, [a], [was]).Ok? ==>
              && NoDup(UpdateWhitelist(list, [a], [was]).value)
              && |UpdateWhitelist(list, [a], [was]).value| == |list|
              && forall x :: x in UpdateWhitelist(list, [a], [was]).value <==> (x in list || x == a) && x != was
  {
    UpdateWhitelistIff(list, [a], [was]);
    assert forall x :: x in [a] <==> x == a;
    assert forall x :: x in [was] <==> x == was;
  }

  /** One request is taken up exactly when it is upgradable. */
  lemma RequestIff(st: Storage, chain: Chain, w: World, req: UpgradeRequest)
    requires NoDup(st.whitelist) && |st.whitelist| <= 15
    ensures SetMigrateContext(st, chain, w, req).Some? <==> Upgradable(st, chain, w, req)
  {
    if req.info.id in st.modules {
      var a := st.modules[req.info.id];
      if Cw2At(w, a).Some? {
        NamespacedIff(Cw2At(w, a).value.contract);
      }
      if Lookup(chain, req.info).Some? {
        var m := Lookup(chain, req.info).value;
        DependentsSupportIff(st, w, m.id, m.version);
        if m.reference.Adapter? {
          ReplaceAcceptable(st.whitelist, m.reference.addr, a);
          assert [(m.id, m.reference.addr)][1..] == [];
          assert SaveAddresses(st.modules, [(m.id, m.reference.addr)]).Ok? <==> m.id != "";
        }
      }
    }
  }

  /** What taking it up does: adapters are replaced, apps and adapters recorded with the dependencies they had. */
  lemma RequestEffect(st: Storage, chain: Chain, w: World, req: UpgradeRequest)
    requires NoDup(st.whitelist) && |st.whitelist| <= 15
    requires SetMigrateContext(st, chain, w, req).Some? && Lookup(chain, req.info).Some?
    ensures var r, m := SetMigrateContext(st, chain, w, req).value, Lookup(chain, req.info).value;
            && m.id in st.modules
            && r.modules == (if m.reference.Adapter? then st.modules[m.id := m.reference.addr] else st.modules)
            && r.migrateContext == st.migrateContext
               + (if m.reference.Standalone? then [] else [MigrateEntry(m.id, DepsAt(w, st.modules[m.id]))])
            && r.dependents == st.dependents && r.installContext == st.installContext
            && r.callingToAsAdmin == st.callingToAsAdmin
            && (forall x :: x in r.whitelist <==>
                  if m.reference.Adapter? then (x in st.whitelist || x == m.reference.addr) && x != st.modules[m.id]
                  else x in st.whitelist)
            && NoDup(r.whitelist) && |r.whitelist| == |st.whitelist|
  {
    var m := Lookup(chain, req.info).value;
    if m.reference.Adapter? {
      ReplaceAcceptable(st.whitelist, m.reference.addr, st.modules[m.id]);
      SaveOne(st.modules, m.id, m.reference.addr);
    }
    assert st.migrateContext + [] == st.migrateContext;
  }

  // ------------------------------------------------------------------ the whole first phase

  /** The account's own upgrade is to a registered account, and not to an older version. */
  ghost predicate AccountRequest(chain: Chain, req: UpgradeRequest) {
    && (req.info.Exactly? ==> !VersionLess(req.info.version, chain.accountVersion))
    && Lookup(chain, req.info).Some? && Lookup(chain, req.info).value.reference.AccountRef?
  }

  /** The storage when the request's turn comes: all earlier requests have been taken up. */
  function Before(st: Storage, chain: Chain, w: World, reqs: seq<UpgradeRequest>, i: nat): Option<Storage>
    requires i <= |reqs|
  {
    if i == 0 then Some(st)
    else match Before(st, chain, w, reqs, i - 1)
      case None => None
      case Some(s) => if reqs[i - 1].info.id == "abstract:account" then Some(s) else SetMigrateContext(s, chain, w, reqs[i - 1])
  }

  /** The request is for the account itself, or upgradable when its turn comes. */
  ghost predicate InTurn(st: Storage, chain: Chain, w: World, reqs: seq<UpgradeRequest>, i: nat)
    requires i < |reqs|
  {
    && Before(st, chain, w, reqs, i).Some?
    && (reqs[i].info.id == "abstract:account" || Upgradable(Before(st, chain, w, reqs, i).value, chain, w, reqs[i]))
  }

  lemma {:induction false} BeforeKeepsList(st: Storage, chain: Chain, w: World, reqs: seq<UpgradeRequest>, i: nat)
    requires NoDup(st.whitelist) && |st.whitelist| <= 15 && i <= |reqs|
    ensures var b := Before(st, chain, w, reqs, i);
            b.Some? ==> NoDup(b.value.whitelist) && |b.value.whitelist| <= 15
    decreases i
  {
    if i > 0 {
      BeforeKeepsList(st, chain, w, reqs, i - 1);
      var b := Before(st, chain, w, reqs, i - 1);
      if b.Some? && reqs[i - 1].info.id != "abstract:account" && SetMigrateContext(b.value, chain, w, reqs[i - 1]).Some? {
        RequestIff(b.value, chain, w, reqs[i - 1]);
        RequestEffect(b.value, chain, w, reqs[i - 1]);
      }
    }
  }

  lemma {:induction false} BeforeShift(st: Storage, chain: Chain, w: World, reqs: seq<UpgradeRequest>, next: Storage, i: nat)
    requires i < |reqs|
    requires (next == st && reqs[0].info.id == "abstract:account")
             || (reqs[0].info.id != "abstract:account" && SetMigrateContext(st, chain, w, reqs[0]) == Some(next))
    ensures Before(st, chain, w, reqs, i + 1) == Before(next, chain, w, reqs[1..], i)
    decreases i
  {
    if i == 0 {
      assert Before(st, chain, w, reqs, 0) == Some(st);
    } else {
      BeforeShift(st, chain, w, reqs, next, i - 1);
      assert reqs[1..][i - 1] == reqs[i];
    }
  }

  /** No id is asked for twice, or has been met before. */
  ghost predicate NewIds(reqs: seq<UpgradeRequest>, done: seq<ModuleId>) {
    DistinctRequests(reqs) && forall x :: x in done ==> !Asks(reqs, x)
  }

  lemma NewIdsHead(reqs: seq<UpgradeRequest>, done: seq<ModuleId>)
    requires reqs != []
    ensures NewIds(reqs, done) <==> reqs[0].info.id !in done && NewIds(reqs[1..], done + [reqs[0].info.id])
  {
    DistinctHead(reqs);
    forall x
      ensures Asks(reqs, x) <==> reqs[0].info.id == x || Asks(reqs[1..], x)
    {
      AsksHead(reqs, x);
    }
  }

  /** The loop takes up the requests one after the other, unless an id comes twice. */
  lemma {:induction false} UpgradeEachIff(st: Storage, chain: Chain, w: World, reqs: seq<UpgradeRequest>, done: seq<ModuleId>)
    ensures UpgradeEach(st, chain, w, reqs, done)
            == if NewIds(reqs, done) then Before(st, chain, w, reqs, |reqs|) else None
    decreases reqs
  {
    if reqs != [] {
      NewIdsHead(reqs, done);
      var head := reqs[0];
      var next := if head.info.id == "abstract:account" then Some(st) else SetMigrateContext(st, chain, w, head);
      if next.Some? {
        UpgradeEachIff(next.value, chain, w, reqs[1..], done + [head.info.id]);
        BeforeShift(st, chain, w, reqs, next.value, |reqs| - 1);
      } else {
        BeforeFails(st, chain, w, reqs, |reqs|);
      }
    }
  }

  lemma {:induction false} BeforeFails(st: Storage, chain: Chain, w: World, reqs: seq<UpgradeRequest>, i: nat)
    requires 1 <= i <= |reqs| && reqs[0].info.id != "abstract:account" && SetMigrateContext(st, chain, w, reqs[0]).None?
    ensures Before(st, chain, w, reqs, i).None?
    decreases i
  {
    if i > 1 {
      BeforeFails(st, chain, w, reqs, i - 1);
    } else {
      assert Before(st, chain, w, reqs, 0) == Some(st);
    }
  }

  /** All requests are taken up exactly when each can be in its turn. */
  lemma {:induction false} BeforeIff(st: Storage, chain: Chain, w: World, reqs: seq<UpgradeRequest>, i: nat)
    requires NoDup(st.whitelist) && |st.whitelist| <= 15 && i <= |reqs|
    ensures Before(st, chain, w, reqs, i).Some? <==> forall j :: 0 <= j < i ==> InTurn(st, chain, w, reqs, j)
    decreases i
  {
    if i > 0 {
      BeforeIff(st, chain, w, reqs, i - 1);
      BeforeKeepsList(st, chain, w, reqs, i - 1);
      var b := Before(st, chain, w, reqs, i - 1);
      if b.Some? {
        RequestIff(b.value, chain, w, reqs[i - 1]);
      }
      assert Before(st, chain, w, reqs, i).Some? <==> InTurn(st, chain, w, reqs, i - 1);
      if Before(st, chain, w, reqs, i).None? {
        assert !InTurn(st, chain, w, reqs, i - 1);
      }
    }
  }

  /**
   The first phase of an upgrade succeeds exactly when something is asked for, nothing twice, the account only for a
   registered account that is not older, and every other module only when it is upgradable in its turn.
   */
  lemma UpgradeModulesIff(st: Storage, chain: Chain, w: World, reqs: seq<UpgradeRequest>)
    requires NoDup(st.whitelist) && |st.whitelist| <= 15
    ensures var start := st.(callingToAsAdmin := Some("calling-to-wild-card"));
            && (UpgradeModules(st, chain, w, reqs).Some? <==>
                  && reqs != [] && DistinctRequests(reqs)
                  && (forall q :: q in reqs && q.info.id == "abstract:account" ==> AccountRequest(chain, q))
                  && forall i :: 0 <= i < |reqs| ==> InTurn(start, chain, w, reqs, i))
            && (UpgradeModules(st, chain, w, reqs).Some? ==>
                  UpgradeModules(st, chain, w, reqs) == Before(start, chain, w, reqs, |reqs|))
  {
    var start := st.(callingToAsAdmin := Some("calling-to-wild-card"));
    UpgradeEachIff(start, chain, w, reqs, []);
    BeforeIff(start, chain, w, reqs, |reqs|);
    AccountUpgradableIff(chain, reqs);
  }

  lemma AccountUpgradableIff(chain: Chain, reqs: seq<UpgradeRequest>)
    ensures AccountUpgradable(chain, reqs) <==>
            forall q :: q in reqs && q.info.id == "abstract:account" ==> AccountRequest(chain, q)
  {
    forall q: UpgradeRequest
      ensures AccountRequest(chain, q) <==>
              (var m := RequestedModule(chain, chain.accountVersion, q.info); m.Some? && m.value.reference.AccountRef?)
    {}
    if AccountUpgradable(chain, reqs) {
      forall q | q in reqs && q.info.id == "abstract:account"
        ensures AccountRequest(chain, q)
      {
        var i :| 0 <= i < |reqs| && reqs[i] == q;
      }
    }
  }

  // ------------------------------------------------------------------ never back to an older version

  /** A module that has not been asked for yet is where it was. */
  lemma {:induction false} BeforeOwn(st: Storage, chain: Chain, w: World, reqs: seq<UpgradeRequest>, i: nat, id: ModuleId)
    requires NoDup(st.whitelist) && |st.whitelist| <= 15 && i <= |reqs| && Before(st, chain, w, reqs, i).Some?
    requires forall j :: 0 <= j < i ==> reqs[j].info.id != id
    ensures var b := Before(st, chain, w, reqs, i).value;
            && b.modules.Keys == st.modules.Keys
            && (id in st.modules ==> b.modules[id] == st.modules[id])
    decreases i
  {
    if i > 0 {
      BeforeOwn(st, chain, w, reqs, i - 1, id);
      BeforeKeepsList(st, chain, w, reqs, i - 1);
      var b := Before(st, chain, w, reqs, i - 1).value;
      if reqs[i - 1].info.id != "abstract:account" {
        RequestIff(b, chain, w, reqs[i - 1]);
        RequestEffect(b, chain, w, reqs[i - 1]);
      }
    }
  }

  /** An upgrade that names a version never goes below the one the module, or the account itself, has. */
  lemma NeverOlder(st: Storage, chain: Chain, w: World, reqs: seq<UpgradeRequest>, q: UpgradeRequest)
    requires NoDup(st.whitelist) && |st.whitelist| <= 15
    requires UpgradeModules(st, chain, w, reqs).Some? && q in reqs && q.info.Exactly?
    ensures q.info.id == "abstract:account" ==> !VersionLess(q.info.version, chain.accountVersion)
    ensures q.info.id != "abstract:account" ==>
              q.info.id in st.modules && NotOlder(chain, w, st.modules[q.info.id], q.info.version)
  {
    UpgradeModulesIff(st, chain, w, reqs);
    if q.info.id != "abstract:account" {
      var start := st.(callingToAsAdmin := Some("calling-to-wild-card"));
      var i :| 0 <= i < |reqs| && reqs[i] == q;
      assert InTurn(start, chain, w, reqs, i);
      BeforeOwn(start, chain, w, reqs, i, q.info.id);
    }
  }
}
