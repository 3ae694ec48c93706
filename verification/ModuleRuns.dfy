/**
 Runs of installs, uninstalls and upgrades. Along every run the dependents index equals the relation
 it indexes, and every installed module's dependencies are installed at accepted versions.
 */
module ModuleRuns {
  import opened Basics
  import opened Cosmos
  import opened ModuleTypes
  import opened Whitelist
  import opened Dependents
  import opened ModuleManager
  import opened InstallChecks

  /** The account's storage, the other contracts, and the reference each installed module was registered with. */
  datatype Sys = Sys(st: Storage, w: World, kinds: map<ModuleId, ModuleReference>)

  datatype Action =
    | Install(chain: Chain, batch: seq<InstallConfig>, after: World)
    | Uninstall(chain: Chain, id: ModuleId)
    | Upgrade(chain: Chain, reqs: seq<UpgradeRequest>, after: World)
    | Elsewhere(after: World)

  // ------------------------------------------------------------------ invariants

  /** The dependencies of an installed tracked module; none for any other id. */
  ghost function Declared(s: Sys, m: ModuleId): seq<Dependency> {
    if m in s.st.modules && m in s.kinds && Tracked(s.kinds[m]) then DepsAt(s.w, s.st.modules[m]) else []
  }

  /** The index is exact for every module outside `open`, and does not mention those inside. */
  ghost predicate IndexExactExcept(s: Sys, open: set<ModuleId>) {
    forall m :: ListsExactly(s.st.dependents, m, if m in open then [] else Declared(s, m))
  }

  ghost predicate IndexExact(s: Sys) {
    IndexExactExcept(s, {})
  }

  ghost predicate Closed(s: Sys) {
    forall m :: AllMet(s.st.modules, s.w, Declared(s, m))
  }

  ghost predicate Valid(s: Sys) {
    && s.kinds.Keys == s.st.modules.Keys
    && s.st.migrateContext == []
    && s.st.callingToAsAdmin == None
    && IndexExact(s)
    && Closed(s)
  }

  /** m is listed under d exactly when m is installed, tracked and declares d. */
  lemma IndexExactIff(s: Sys, d: ModuleId, m: ModuleId)
    requires IndexExact(s) && s.kinds.Keys == s.st.modules.Keys
    ensures m in DependentsOf(s.st.dependents, d) <==>
            m in s.st.modules && Tracked(s.kinds[m]) && d in DepIds(DepsAt(s.w, s.st.modules[m]))
  {
    assert ListsExactly(s.st.dependents, m, Declared(s, m));
  }

  // ------------------------------------------------------------------ steps

  function RecordKinds(kinds: map<ModuleId, ModuleReference>, context: seq<InstallEntry>): map<ModuleId, ModuleReference>
    decreases context
  {
    if context == [] then kinds
    else RecordKinds(kinds[context[0].m.id := context[0].m.reference], context[1..])
  }

  function RecordUpgrades(kinds: map<ModuleId, ModuleReference>, chain: Chain, reqs: seq<UpgradeRequest>)
    : map<ModuleId, ModuleReference>
    decreases reqs
  {
    if reqs == [] then kinds
    else
      var m := Lookup(chain, reqs[0].info);
      RecordUpgrades(if m.Some? && m.value.id != ACCOUNT then kinds[m.value.id := m.value.reference] else kinds,
                     chain, reqs[1..])
  }

  /** A whole transaction: both phases with the other contracts acting in between, or no change at all. */
  function Step(s: Sys, a: Action): Sys {
    match a
    case Install(chain, batch, after) =>
      (match InstallModules(s.st, chain, s.w, batch)
       case Err(_) => s
       case Ok(pending) =>
         match RegisterDependencies(pending, after)
         case Err(_) => s
         case Ok(st) => Sys(st, after, RecordKinds(s.kinds, pending.installContext)))
    case Uninstall(chain, id) =>
      (match UninstallModule(s.st, chain, s.w, id)
       case Err(_) => s
       case Ok(st) => Sys(st, s.w, s.kinds - {id}))
    case Upgrade(chain, reqs, after) =>
      (match UpgradeModules(s.st, chain, s.w, reqs)
       case None => s
       case Some(pending) =>
         match FinishUpgrade(pending, after)
         case None => s
         case Some(st) => Sys(st, after, RecordUpgrades(s.kinds, chain, reqs)))
    case Elsewhere(after) => s.(w := after)
  }

  // ------------------------------------------------------------------ assumptions about the other contracts

  /** The contracts of the installed modules outside `except` keep their cw2 and module data. */
  ghost predicate Untouched(s: Sys, after: World, except: set<ModuleId>) {
    forall m :: m in s.st.modules && m !in except ==>
      && Cw2At(after, s.st.modules[m]) == Cw2At(s.w, s.st.modules[m])
      && DataAt(after, s.st.modules[m]) == DataAt(s.w, s.st.modules[m])
  }

  /**
   No tracked entry of a batch that declares dependencies is overwritten by an untracked entry with the same id:
   the kind recorded for its id, that of the last such entry, is a tracked one.
   */
  ghost predicate NoTrackedOverwritten(modules: map<ModuleId, Addr>, kinds: map<ModuleId, ModuleReference>, w: World,
                                       context: seq<InstallEntry>)
  {
    forall e :: e in context && EntryDeps(modules, w, e) != [] ==> e.m.id in kinds && Tracked(kinds[e.m.id])
  }

  /** The modules an upgrade sends messages for. */
  ghost function Targets(reqs: seq<UpgradeRequest>): set<ModuleId> {
    set i | 0 <= i < |reqs| && reqs[i].info.id != ACCOUNT :: reqs[i].info.id
  }

  ghost predicate StandaloneRequest(chain: Chain, reqs: seq<UpgradeRequest>, id: ModuleId) {
    exists i :: 0 <= i < |reqs| && reqs[i].info.id == id && id != ACCOUNT
                && Lookup(chain, reqs[i].info).Some? && Lookup(chain, reqs[i].info).value.reference.Standalone?
  }

  /** The module was installed as one whose dependencies the index records. */
  ghost predicate WasTracked(s: Sys, id: ModuleId) {
    id in s.kinds && Tracked(s.kinds[id])
  }

  /** The dependencies that the contract of an upgraded module declares afterwards. */
  function NewDeps(modules: map<ModuleId, Addr>, w: World, e: MigrateEntry): seq<Dependency> {
    DepsAt(w, GetOr(modules, e.id, ""))
  }

  /**
   What the index needs from the upgraded contracts themselves: the comparison of old and new lists moves each app
   and adapter exactly, and a standalone, which is not recorded in the context, declares the ids it was listed for.
   */
  ghost predicate IndexFriendly(s: Sys, pending: Storage, chain: Chain, reqs: seq<UpgradeRequest>, after: World) {
    && (forall e :: e in pending.migrateContext ==>
          MovesExactly(WasTracked(s, e.id), e.oldDeps, NewDeps(pending.modules, after, e)))
    && (forall id :: id in s.st.modules && StandaloneRequest(chain, reqs, id) ==>
          DepIds(DepsAt(after, s.st.modules[id])) == DepIds(Declared(s, id)))
  }

  /** The requests of an install batch are for different modules. */
  ghost predicate DistinctBatch(batch: seq<InstallConfig>) {
    forall i, j :: 0 <= i < j < |batch| ==> batch[i].info.id != batch[j].info.id
  }

  // ------------------------------------------------------------------ install

  ghost predicate Saves(add: seq<(ModuleId, Addr)>, id: ModuleId) {
    exists i :: 0 <= i < |add| && add[i].0 == id
  }

  lemma SavesHead(add: seq<(ModuleId, Addr)>, id: ModuleId)
    requires add != []
    ensures Saves(add, id) <==> add[0].0 == id || Saves(add[1..], id)
  {
    if i :| 0 <= i < |add| && add[i].0 == id {
      assert i > 0 ==> add[1..][i - 1].0 == id;
    }
    if i :| 0 <= i < |add[1..]| && add[1..][i].0 == id {
      assert add[i + 1].0 == id;
    }
  }

  lemma {:induction false} SaveAddressesEffect(modules: map<ModuleId, Addr>, add: seq<(ModuleId, Addr)>)
    requires SaveAddresses(modules, add).Ok?
    ensures var r := SaveAddresses(modules, add).value;
            && (forall id :: id in r <==> id in modules || Saves(add, id))
            && (forall id :: id in modules && !Saves(add, id) ==> r[id] == modules[id])
            && (forall i :: 0 <= i < |add| && !Saves(add[i + 1..], add[i].0) ==> r[add[i].0] == add[i].1)
    decreases add
  {
    if add != [] {
      SaveAddressesEffect(modules[add[0].0 := add[0].1], add[1..]);
      forall id {
        SavesHead(add, id);
      }
      forall i | 0 <= i < |add| && !Saves(add[i + 1..], add[i].0)
        ensures SaveAddresses(modules, add).value[add[i].0] == add[i].1
      {
        if i > 0 {
          assert add[i] == add[1..][i - 1] && add[i + 1..] == add[1..][i..];
        }
      }
    }
  }

  lemma {:induction false} ResolveAllIds(chain: Chain, batch: seq<InstallConfig>)
    requires ResolveAll(chain, batch).Some?
    ensures var ms := ResolveAll(chain, batch).value;
            |ms| == |batch| && forall i :: 0 <= i < |ms| ==> Lookup(chain, batch[i].info) == Some(ms[i]) && ms[i].id == batch[i].info.id
  {
    if batch != [] {
      ResolveAllIds(chain, batch[1..]);
    }
  }

  /** The plan lists the resolved modules in order, none of them installed before. */
  lemma {:induction false} PlanFromEffect(modules: map<ModuleId, Addr>, chain: Chain, w: World, ms: seq<Module>,
                                          batch: seq<InstallConfig>, plan: Plan)
    requires |ms| == |batch| && |plan.account| == |plan.context|
    requires PlanFrom(modules, chain, w, ms, batch, plan).Ok?
    ensures var p := PlanFrom(modules, chain, w, ms, batch, plan).value;
            && |p.account| == |p.context| == |plan.context| + |ms|
            && plan.account <= p.account && plan.context <= p.context
            && (forall i :: 0 <= i < |ms| ==>
                  var at := |plan.context| + i;
                  && ms[i].id !in modules
                  && p.context[at].m == ms[i]
                  && p.account[at].0 == ms[i].id
                  && Place(modules, chain, w, ms[i], batch[i].hasInitMsg)
                     == Ok(Placement(p.account[at].1, p.context[at].address)))
    decreases |ms|
  {
    if ms != [] {
      var place := Place(modules, chain, w, ms[0], batch[0].hasInitMsg).value;
      var next := Extend(plan, ms[0], place);
      PlanFromEffect(modules, chain, w, ms[1..], batch[1..], next);
      var p := PlanFrom(modules, chain, w, ms, batch, plan).value;
      assert next.context[|plan.context|] == p.context[|plan.context|];
      assert next.account[|plan.account|] == p.account[|plan.account|];
      forall i | 0 < i < |ms|
        ensures var at := |plan.context| + i;
                && ms[i].id !in modules
                && p.context[at].m == ms[i]
                && p.account[at].0 == ms[i].id
                && Place(modules, chain, w, ms[i], batch[i].hasInitMsg)
                   == Ok(Placement(p.account[at].1, p.context[at].address))
      {
        assert ms[i] == ms[1..][i - 1] && batch[i] == batch[1..][i - 1];
      }
    }
  }

  ghost function ContextIds(context: seq<InstallEntry>): set<ModuleId> {
    set i | 0 <= i < |context| :: context[i].m.id
  }

  /** The vectors of a plan run in parallel over the resolved modules. */
  lemma PlanEffect(modules: map<ModuleId, Addr>, chain: Chain, w: World, ms: seq<Module>, batch: seq<InstallConfig>)
    requires |ms| == |batch| && PlanFrom(modules, chain, w, ms, batch, EMPTY_PLAN).Ok?
    ensures var p := PlanFrom(modules, chain, w, ms, batch, EMPTY_PLAN).value;
            && |p.account| == |p.context| == |ms|
            && (forall i :: 0 <= i < |ms| ==> p.context[i].m == ms[i])
            && (forall i :: 0 <= i < |ms| ==> p.account[i].0 == ms[i].id)
            && (forall i :: 0 <= i < |ms| ==> ms[i].id !in modules)
            && (forall i :: 0 <= i < |ms| ==> Place(modules, chain, w, ms[i], batch[i].hasInitMsg)
                                              == Ok(Placement(p.account[i].1, p.context[i].address)))
            && (forall id :: id in ContextIds(p.context) <==> Saves(p.account, id))
  {
    PlanFromEffect(modules, chain, w, ms, batch, EMPTY_PLAN);
    var p := PlanFrom(modules, chain, w, ms, batch, EMPTY_PLAN).value;
    forall i | 0 <= i < |ms|
      ensures p.context[i].m == ms[i] && p.account[i].0 == ms[i].id
    {
      assert 0 + i == i && ms[i].id !in modules;
    }
    forall id
      ensures id in ContextIds(p.context) <==> Saves(p.account, id)
    {
      if id in ContextIds(p.context) {
        var i :| 0 <= i < |p.context| && p.context[i].m.id == id;
        assert p.account[i].0 == ms[i].id;
      }
      if Saves(p.account, id) {
        var i :| 0 <= i < |p.account| && p.account[i].0 == id;
        assert p.context[i].m.id in ContextIds(p.context);
      }
    }
  }

  /** The first phase adds the batch and nothing else; the index is not touched. */
  lemma InstallModulesEffect(st: Storage, chain: Chain, w: World, batch: seq<InstallConfig>)
    requires InstallModules(st, chain, w, batch).Ok?
    ensures var pending := InstallModules(st, chain, w, batch).value;
            && pending.dependents == st.dependents
            && pending.migrateContext == st.migrateContext
            && pending.callingToAsAdmin == st.callingToAsAdmin
            && pending.modules.Keys == st.modules.Keys + ContextIds(pending.installContext)
            && ContextIds(pending.installContext) !! st.modules.Keys
            && (forall m :: m in st.modules ==> pending.modules[m] == st.modules[m])
            && |pending.installContext| == |batch|
            && (forall i :: 0 <= i < |batch| ==> Lookup(chain, batch[i].info) == Some(pending.installContext[i].m))
  {
    var ms, plan := InstallPlan(st, chain, w, batch);
    ResolveAllIds(chain, batch);
    PlanEffect(st.modules, chain, w, ms, batch);
    assert forall id :: id in ContextIds(plan.context) ==> id !in st.modules;
    PlanSaved(st.modules, plan);
  }

  /** Saving a plan of new modules adds exactly their ids. */
  lemma PlanSaved(modules: map<ModuleId, Addr>, plan: Plan)
    requires SaveAddresses(modules, plan.account).Ok?
    requires forall id :: id in ContextIds(plan.context) <==> Saves(plan.account, id)
    requires forall id :: id in ContextIds(plan.context) ==> id !in modules
    ensures SaveAddresses(modules, plan.account).value.Keys == modules.Keys + ContextIds(plan.context)
    ensures forall m :: m in modules ==> SaveAddresses(modules, plan.account).value[m] == modules[m]
  {
    SaveAddressesEffect(modules, plan.account);
  }

  /** The resolved modules and the plan behind a successful first phase. */
  lemma InstallPlan(st: Storage, chain: Chain, w: World, batch: seq<InstallConfig>) returns (ms: seq<Module>, plan: Plan)
    requires InstallModules(st, chain, w, batch).Ok?
    ensures ResolveAll(chain, batch) == Some(ms) && |ms| == |batch|
    ensures PlanFrom(st.modules, chain, w, ms, batch, EMPTY_PLAN) == Ok(plan)
    ensures UpdateWhitelist(st.whitelist, plan.whitelist, []).Ok? && SaveAddresses(st.modules, plan.account).Ok?
    ensures InstallModules(st, chain, w, batch).value
            == st.(whitelist := UpdateWhitelist(st.whitelist, plan.whitelist, []).value, installContext := plan.context,
                   modules := SaveAddresses(st.modules, plan.account).value)
  {
    ms := ResolveAll(chain, batch).value;
    ResolveAllLength(chain, batch);
    plan := PlanFrom(st.modules, chain, w, ms, batch, EMPTY_PLAN).value;
  }

  /** The last entry for an id decides the recorded reference. */
  lemma {:induction false} RecordKindsEffect(kinds: map<ModuleId, ModuleReference>, context: seq<InstallEntry>)
    ensures var r := RecordKinds(kinds, context);
            && r.Keys == kinds.Keys + ContextIds(context)
            && (forall m :: m in kinds && m !in ContextIds(context) ==> r[m] == kinds[m])
            && (forall m :: m in ContextIds(context) ==> exists e :: e in context && e.m.id == m && r[m] == e.m.reference)
            && (forall i :: 0 <= i < |context| && context[i].m.id !in ContextIds(context[i + 1..]) ==>
                  r[context[i].m.id] == context[i].m.reference)
    decreases context
  {
    if context != [] {
      ContextIdsHead(context);
      RecordKindsEffect(kinds[context[0].m.id := context[0].m.reference], context[1..]);
      forall i | 0 <= i < |context| && context[i].m.id !in ContextIds(context[i + 1..])
        ensures RecordKinds(kinds, context)[context[i].m.id] == context[i].m.reference
      {
        if i > 0 {
          assert context[i] == context[1..][i - 1] && context[i + 1..] == context[1..][i..];
        }
      }
    }
  }

  lemma ContextIdsHead(context: seq<InstallEntry>)
    requires context != []
    ensures ContextIds(context) == {context[0].m.id} + ContextIds(context[1..])
  {
    forall d | d in ContextIds(context)
      ensures d in {context[0].m.id} + ContextIds(context[1..])
    {
      var i :| 0 <= i < |context| && context[i].m.id == d;
      assert i > 0 ==> context[1..][i - 1].m.id == d;
    }
    forall d | d in ContextIds(context[1..])
      ensures d in ContextIds(context)
    {
      var i :| 0 <= i < |context[1..]| && context[1..][i].m.id == d;
      assert context[i + 1].m.id == d;
    }
  }

  /**
   What the reply demands of one entry: a genuine contract, and of apps, adapters and standalones that their dependencies
   are met. Apps and adapters must have module data to read them from.
   */
  ghost predicate EntryAccepted(modules: map<ModuleId, Addr>, w: World, e: InstallEntry) {
    && (EntryAddress(e).Some? ==> Genuine(w, e.m, EntryAddress(e).value))
    && (e.m.reference.App? || e.m.reference.Adapter? || e.m.reference.Standalone? ==>
          && (e.m.reference.Standalone? || (e.m.id in modules && DataAt(w, modules[e.m.id]).Some?))
          && AllMet(modules, w, EntryDeps(modules, w, e)))
  }

  /** The dependencies the reply records for one entry. */
  ghost function EntryDeps(modules: map<ModuleId, Addr>, w: World, e: InstallEntry): seq<Dependency> {
    if Tracked(e.m.reference) && e.m.id in modules then DepsAt(w, modules[e.m.id]) else []
  }

  /** The reply succeeds exactly when it accepts every entry, and records exactly their dependencies. */
  lemma {:induction false} RegisterFromExact(modules: map<ModuleId, Addr>, ix: Index, w: World, context: seq<InstallEntry>)
    ensures var r := RegisterFrom(modules, ix, w, context);
            && (r.Ok? <==> forall e :: e in context ==> EntryAccepted(modules, w, e))
            && (r.Ok? ==>
                  && (forall d :: d in r.value <==> d in ix || exists e :: e in context && d in DepIds(EntryDeps(modules, w, e)))
                  && (forall d, m :: m in DependentsOf(r.value, d) <==>
                        || m in DependentsOf(ix, d)
                        || exists e :: e in context && e.m.id == m && d in DepIds(EntryDeps(modules, w, e))))
    decreases context
  {
    if context != [] {
      var e, rest := context[0], context[1..];
      assert forall x :: x in context <==> x == e || x in rest;
      RegisterEntryExact(modules, ix, w, e);
      var head := RegisterEntry(modules, ix, w, e);
      if head.Ok? {
        SetAsDependentExact(ix, e.m.id, EntryDeps(modules, w, e));
        RegisterFromExact(modules, head.value, w, rest);
      }
    }
  }

  lemma RegisterEntryExact(modules: map<ModuleId, Addr>, ix: Index, w: World, e: InstallEntry)
    ensures var r := RegisterEntry(modules, ix, w, e);
            && (r.Ok? <==> EntryAccepted(modules, w, e))
            && (r.Ok? ==> r.value == SetAsDependent(ix, e.m.id, EntryDeps(modules, w, e)))
  {
    CheckIff(w, e);
  }

  /** During an open install the index is exact for every module outside the install context. */
  lemma OpenInstallIndex(s: Sys, chain: Chain, batch: seq<InstallConfig>, after: World)
    requires s.kinds.Keys == s.st.modules.Keys && IndexExact(s) && Untouched(s, after, {})
    requires InstallModules(s.st, chain, s.w, batch).Ok?
    ensures var pending := InstallModules(s.st, chain, s.w, batch).value;
            IndexExactExcept(Sys(pending, after, RecordKinds(s.kinds, pending.installContext)), ContextIds(pending.installContext))
  {
    InstallModulesEffect(s.st, chain, s.w, batch);
    var pending := InstallModules(s.st, chain, s.w, batch).value;
    RecordKindsEffect(s.kinds, pending.installContext);
    var t := Sys(pending, after, RecordKinds(s.kinds, pending.installContext));
    var open := ContextIds(pending.installContext);
    forall m
      ensures ListsExactly(t.st.dependents, m, if m in open then [] else Declared(t, m))
    {
      assert ListsExactly(s.st.dependents, m, Declared(s, m));
      if m in open {
        assert m !in s.st.modules;
      } else {
        assert Declared(t, m) == Declared(s, m);
      }
    }
  }

  /** The kind recorded for an id of the context is that of one of its entries. */
  ghost predicate RecordedFrom(s: Sys) {
    && (forall e :: e in s.st.installContext ==> e.m.id in s.st.modules && e.m.id in s.kinds)
    && (forall m :: m in ContextIds(s.st.installContext) ==>
          exists e :: e in s.st.installContext && e.m.id == m && m in s.kinds && s.kinds[m] == e.m.reference)
  }

  /**
   The reply registers the open batch. It has checked the dependencies of all its modules, and the index is then
   exact for every module if and only if no tracked entry with dependencies was overwritten by an untracked one.
   */
  lemma RegisterClosesGapIff(s: Sys, st: Storage)
    requires IndexExactExcept(s, ContextIds(s.st.installContext)) && RecordedFrom(s)
    requires RegisterDependencies(s.st, s.w) == Ok(st)
    ensures IndexExact(s.(st := st)) <==> NoTrackedOverwritten(s.st.modules, s.kinds, s.w, s.st.installContext)
    ensures forall m :: m in ContextIds(s.st.installContext) ==> AllMet(s.st.modules, s.w, Declared(s, m))
  {
    var context := s.st.installContext;
    var t := s.(st := st);
    forall m
      ensures m in ContextIds(context) ==> AllMet(s.st.modules, s.w, Declared(s, m))
      ensures m !in ContextIds(context) ==> ListsExactly(t.st.dependents, m, Declared(t, m))
    {
      RegisteredModule(s, st, m);
    }
    if NoTrackedOverwritten(s.st.modules, s.kinds, s.w, context) {
      forall m
        ensures ListsExactly(t.st.dependents, m, Declared(t, m))
      {
        RegisteredModule(s, st, m);
      }
    }
    if IndexExact(t) {
      forall e | e in context && EntryDeps(s.st.modules, s.w, e) != []
        ensures Tracked(s.kinds[e.m.id])
      {
        ContextIdsMember(context, e);
        RegisteredEntry(s, st, e);
        var deps := EntryDeps(s.st.modules, s.w, e);
        assert deps[0].id in DepIds(deps);
        assert ListsExactly(t.st.dependents, e.m.id, Declared(t, e.m.id));
      }
    }
  }

  /** What the reply leaves of one module. */
  lemma RegisteredModule(s: Sys, st: Storage, m: ModuleId)
    requires IndexExactExcept(s, ContextIds(s.st.installContext)) && RecordedFrom(s)
    requires RegisterDependencies(s.st, s.w) == Ok(st)
    ensures m !in ContextIds(s.st.installContext) ==> ListsExactly(st.dependents, m, Declared(s.(st := st), m))
    ensures m in ContextIds(s.st.installContext) ==>
              && AllMet(s.st.modules, s.w, Declared(s, m))
              && (NoTrackedOverwritten(s.st.modules, s.kinds, s.w, s.st.installContext) ==>
                    ListsExactly(st.dependents, m, Declared(s.(st := st), m)))
  {
    assert ListsExactly(s.st.dependents, m, if m in ContextIds(s.st.installContext) then [] else Declared(s, m));
    if m in ContextIds(s.st.installContext) {
      RegisteredInside(s, st, m);
    } else {
      RegisteredOutside(s, st, m);
    }
  }

  lemma RegisteredOutside(s: Sys, st: Storage, m: ModuleId)
    requires RegisterDependencies(s.st, s.w) == Ok(st) && m !in ContextIds(s.st.installContext)
    ensures forall d :: m in DependentsOf(st.dependents, d) <==> m in DependentsOf(s.st.dependents, d)
    ensures Declared(s.(st := st), m) == Declared(s, m)
  {
    RegisterFromExact(s.st.modules, s.st.dependents, s.w, s.st.installContext);
    forall e | e in s.st.installContext
      ensures e.m.id != m
    {
      ContextIdsMember(s.st.installContext, e);
    }
  }

  lemma RegisteredInside(s: Sys, st: Storage, m: ModuleId)
    requires RecordedFrom(s) && m in ContextIds(s.st.installContext)
    requires RegisterDependencies(s.st, s.w) == Ok(st) && ListsExactly(s.st.dependents, m, [])
    ensures AllMet(s.st.modules, s.w, Declared(s, m))
    ensures NoTrackedOverwritten(s.st.modules, s.kinds, s.w, s.st.installContext) ==>
              ListsExactly(st.dependents, m, Declared(s.(st := st), m))
  {
    var context := s.st.installContext;
    RegisterFromExact(s.st.modules, s.st.dependents, s.w, context);
    var last :| last in context && last.m.id == m && m in s.kinds && s.kinds[m] == last.m.reference;
    assert EntryAccepted(s.st.modules, s.w, last);
    assert EntryDeps(s.st.modules, s.w, last) == Declared(s, m);
    if NoTrackedOverwritten(s.st.modules, s.kinds, s.w, context) {
      EntriesAlike(s, m);
      assert forall d :: m !in DependentsOf(s.st.dependents, d);
      forall d
        ensures m in DependentsOf(st.dependents, d) <==> d in DepIds(Declared(s, m))
      {
        assert m in DependentsOf(st.dependents, d) <==>
               exists e :: e in context && e.m.id == m && d in DepIds(EntryDeps(s.st.modules, s.w, e));
      }
    }
  }

  /** Entries for one id are read from the same address: each records nothing or what the module declares. */
  lemma EntriesAlike(s: Sys, m: ModuleId)
    requires NoTrackedOverwritten(s.st.modules, s.kinds, s.w, s.st.installContext)
    ensures forall e :: e in s.st.installContext && e.m.id == m ==>
              EntryDeps(s.st.modules, s.w, e) == [] || EntryDeps(s.st.modules, s.w, e) == Declared(s, m)
  {}

  /** Every accepted entry is listed under its dependencies. */
  lemma RegisteredEntry(s: Sys, st: Storage, e: InstallEntry)
    requires RegisterDependencies(s.st, s.w) == Ok(st) && e in s.st.installContext
    ensures forall d :: d in DepIds(EntryDeps(s.st.modules, s.w, e)) ==> e.m.id in DependentsOf(st.dependents, d)
  {
    RegisterFromExact(s.st.modules, s.st.dependents, s.w, s.st.installContext);
  }

  /** A module's dependencies stay met when each keeps its place and its cw2 data. */
  lemma StillMet(s: Sys, t: Sys, m: ModuleId)
    requires AllMet(s.st.modules, s.w, Declared(s, m))
    requires forall dep :: dep in Declared(s, m) && dep.id in s.st.modules ==>
               && dep.id in t.st.modules
               && Cw2At(t.w, t.st.modules[dep.id]) == Cw2At(s.w, s.st.modules[dep.id])
    ensures AllMet(t.st.modules, t.w, Declared(s, m))
  {
    var deps := Declared(s, m);
    forall i | 0 <= i < |deps|
      ensures DependencyMet(t.st.modules, t.w, deps[i])
    {
      assert DependencyMet(s.st.modules, s.w, deps[i]);
      assert deps[i] in deps;
    }
  }

  lemma ContextIdsMember(context: seq<InstallEntry>, e: InstallEntry)
    requires e in context
    ensures e.m.id in ContextIds(context)
  {
    var i :| 0 <= i < |context| && context[i] == e;
    assert context[i].m.id in ContextIds(context);
  }

  /** A successful install keeps the closure, and keeps the index exact if and only if the batch overwrites no tracked entry. */
  lemma InstallIndexIff(s: Sys, chain: Chain, batch: seq<InstallConfig>, after: World)
    requires Valid(s) && Untouched(s, after, {})
    requires InstallModules(s.st, chain, s.w, batch).Ok?
    requires RegisterDependencies(InstallModules(s.st, chain, s.w, batch).value, after).Ok?
    ensures var pending := InstallModules(s.st, chain, s.w, batch).value;
            var t := Step(s, Install(chain, batch, after));
            && Closed(t)
            && t.kinds.Keys == t.st.modules.Keys
            && (IndexExact(t) <==> NoTrackedOverwritten(pending.modules, t.kinds, after, pending.installContext))
  {
    var t := Step(s, Install(chain, batch, after));
    var pending := InstallModules(s.st, chain, s.w, batch).value;
    InstallModulesEffect(s.st, chain, s.w, batch);
    RecordKindsEffect(s.kinds, pending.installContext);
    OpenInstallIndex(s, chain, batch, after);
    var mid := Sys(pending, after, RecordKinds(s.kinds, pending.installContext));
    forall e | e in pending.installContext
      ensures e.m.id in ContextIds(pending.installContext)
    {
      ContextIdsMember(pending.installContext, e);
    }
    RegisterClosesGapIff(mid, t.st);
    InstallKeepsClosed(s, mid, t);
  }

  /** A batch with distinct ids overwrites nothing: every entry is the last for its id, and decides its kind. */
  lemma DistinctOverwritesNothing(st: Storage, kinds: map<ModuleId, ModuleReference>, chain: Chain, w: World, after: World,
                                  batch: seq<InstallConfig>)
    requires InstallModules(st, chain, w, batch).Ok? && DistinctBatch(batch)
    ensures var pending := InstallModules(st, chain, w, batch).value;
            && (forall i :: 0 <= i < |pending.installContext| ==>
                  pending.installContext[i].m.id !in ContextIds(pending.installContext[i + 1..]))
            && NoTrackedOverwritten(pending.modules, RecordKinds(kinds, pending.installContext), after, pending.installContext)
  {
    InstallModulesEffect(st, chain, w, batch);
    var context := InstallModules(st, chain, w, batch).value.installContext;
    forall i | 0 <= i < |context|
      ensures context[i].m.id !in ContextIds(context[i + 1..])
    {
      var later := context[i + 1..];
      forall d | d in ContextIds(later)
        ensures d != context[i].m.id
      {
        var j :| 0 <= j < |later| && later[j].m.id == d;
        assert Lookup(chain, batch[i].info) == Some(context[i].m) && later[j] == context[i + 1 + j];
        assert Lookup(chain, batch[i + 1 + j].info) == Some(context[i + 1 + j].m);
        assert batch[i].info.id != batch[i + 1 + j].info.id;
      }
    }
    RecordKindsEffect(kinds, context);
    forall e | e in context
      ensures e.m.id in RecordKinds(kinds, context) && RecordKinds(kinds, context)[e.m.id] == e.m.reference
    {
      var i :| 0 <= i < |context| && context[i] == e;
      ContextIdsMember(context, e);
    }
  }

  lemma InstallKeepsValid(s: Sys, chain: Chain, batch: seq<InstallConfig>, after: World)
    requires Valid(s) && Untouched(s, after, {}) && DistinctBatch(batch)
    ensures Valid(Step(s, Install(chain, batch, after)))
  {
    if InstallModules(s.st, chain, s.w, batch).Ok? {
      var pending := InstallModules(s.st, chain, s.w, batch).value;
      if RegisterDependencies(pending, after).Ok? {
        InstallModulesEffect(s.st, chain, s.w, batch);
        InstallIndexIff(s, chain, batch, after);
        DistinctOverwritesNothing(s.st, s.kinds, chain, s.w, after, batch);
      }
    }
  }

  lemma InstallKeepsClosed(s: Sys, mid: Sys, t: Sys)
    requires Closed(s) && s.kinds.Keys == s.st.modules.Keys && Untouched(s, mid.w, {})
    requires forall m :: m in s.st.modules ==> m in mid.st.modules && mid.st.modules[m] == s.st.modules[m]
    requires var added := ContextIds(mid.st.installContext);
             && mid.st.modules.Keys == s.st.modules.Keys + added
             && (forall m :: m in s.kinds && m !in added ==> m in mid.kinds && mid.kinds[m] == s.kinds[m])
             && (forall m :: m in added ==> AllMet(mid.st.modules, mid.w, Declared(mid, m)))
    requires t == mid.(st := t.st) && t.st.modules == mid.st.modules
    ensures Closed(t)
  {
    forall m
      ensures AllMet(t.st.modules, t.w, Declared(t, m))
    {
      assert Declared(t, m) == Declared(mid, m);
      if m !in ContextIds(mid.st.installContext) {
        assert Declared(t, m) == Declared(s, m);
        assert AllMet(s.st.modules, s.w, Declared(s, m));
        StillMet(s, t, m);
      }
    }
  }

  // ------------------------------------------------------------------ uninstall

  lemma UninstallKeepsValid(s: Sys, chain: Chain, id: ModuleId)
    requires Valid(s)
    ensures Valid(Step(s, Uninstall(chain, id)))
  {
    var t := Step(s, Uninstall(chain, id));
    if UninstallModule(s.st, chain, s.w, id).Ok? {
      var data := LoadModuleData(s.st.modules, s.w, id).value;
      var ix := s.st.dependents;
      RemoveAsDependentExact(ix - {id}, id, data.dependencies);
      assert forall d :: DependentsOf(ix - {id}, d) == DependentsOf(ix, d);
      forall m
        ensures ListsExactly(t.st.dependents, m, Declared(t, m))
        ensures AllMet(t.st.modules, t.w, Declared(t, m))
      {
        assert ListsExactly(ix, m, Declared(s, m));
        if m != id {
          assert Declared(t, m) == Declared(s, m);
          assert AllMet(s.st.modules, s.w, Declared(s, m));
          forall dep | dep in Declared(s, m)
            ensures dep.id != id
          {
            DepIdsMember(Declared(s, m), dep.id);
            assert m in DependentsOf(ix, dep.id);
          }
          StillMet(s, t, m);
        }
      }
    }
  }

  // ------------------------------------------------------------------ other contracts acting

  /** Between the account's own transactions only the other contracts change; a refused transaction changes nothing. */
  lemma StepRules(s: Sys, a: Action)
    ensures a.Elsewhere? ==> Step(s, a) == Sys(s.st, a.after, s.kinds)
    ensures a.Uninstall? ==> Step(s, a).w == s.w
    ensures a.Install? && InstallModules(s.st, a.chain, s.w, a.batch).Err? ==> Step(s, a) == s
    ensures a.Uninstall? && UninstallModule(s.st, a.chain, s.w, a.id).Err? ==> Step(s, a) == s
    ensures a.Upgrade? && UpgradeModules(s.st, a.chain, s.w, a.reqs).None? ==> Step(s, a) == s
    ensures (a.Install? || a.Upgrade?) && Step(s, a) != s ==> Step(s, a).w == a.after
  {}

  lemma ElsewhereKeepsValid(s: Sys, after: World)
    requires Valid(s) && Untouched(s, after, {})
    ensures Valid(Step(s, Elsewhere(after)))
  {
    var t := s.(w := after);
    forall m
      ensures ListsExactly(t.st.dependents, m, Declared(t, m))
      ensures AllMet(t.st.modules, t.w, Declared(t, m))
    {
      assert ListsExactly(s.st.dependents, m, Declared(s, m));
      assert Declared(t, m) == Declared(s, m);
      assert AllMet(s.st.modules, s.w, Declared(s, m));
      StillMet(s, t, m);
    }
  }
}
