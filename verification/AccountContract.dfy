/** The account contract's module storage, updated in place by the contract's own loops. */
module AccountContract {
  import opened Basics
  import opened Cosmos
  import opened Semver
  import opened ModuleTypes
  import opened Whitelist
  import opened Dependents
  import opened ModuleManager
  import opened ModuleRuns

  class ModuleStore {
    var modules: map<ModuleId, Addr>
    var dependents: Index
    var whitelist: seq<Addr>
    var installContext: seq<InstallEntry>
    var migrateContext: seq<MigrateEntry>
    var callingToAsAdmin: Option<Addr>

    ghost function View(): Storage
      reads this
    {
      Storage(modules, dependents, whitelist, installContext, migrateContext, callingToAsAdmin)
    }

    constructor ()
      ensures View() == FRESH_STORAGE
    {
      modules, dependents, whitelist := map[], map[], [];
      installContext, migrateContext, callingToAsAdmin := [], [], None;
    }

    // ---------------------------------------------------------------- whitelist and addresses

    method UpdateWhitelistedModules(add: seq<Addr>, remove: seq<Addr>) returns (r: Result<(), AccountError>)
      modifies this`whitelist
      ensures match UpdateWhitelist(old(whitelist), add, remove)
              case Ok(list) => r == Ok(()) && whitelist == list
              case Err(e) => r == Err(e) && whitelist == old(whitelist)
    {
      var list := whitelist;
      if |list| + |add| < |remove| {
        return Err(NotWhitelisted);
      }
      var newLen := |list| + |add| - |remove|;
      if newLen > WHITELIST_SIZE_LIMIT {
        return Err(ModuleLimitReached);
      }
      for i := 0 to |add|
        invariant whitelist == old(whitelist)
        invariant PushAll(list, add[i..]) == PushAll(old(whitelist), add)
      {
        if add[i] in list {
          return Err(AlreadyWhitelisted(add[i]));
        }
        list := list + [add[i]];
      }
      assert PushAll(old(whitelist), add) == Ok(list) by {
        assert add[|add|..] == [];
      }
      var kept := [];
      for i := 0 to |list|
        invariant whitelist == old(whitelist)
        invariant kept + Filter(list[i..], a => a !in remove) == Filter(list, a => a !in remove)
      {
        ghost var rest := Filter(list[i + 1..], a => a !in remove);
        assert list[i..][1..] == list[i + 1..];
        MoveHead(kept, list[i], rest);
        if list[i] !in remove {
          kept := kept + [list[i]];
        }
      }
      assert list[|list|..] == [] && kept + [] == kept;
      if |kept| != newLen {
        return Err(NotWhitelisted);
      }
      whitelist := kept;
      return Ok(());
    }

    method UpdateModuleAddresses(add: seq<(ModuleId, Addr)>, remove: seq<ModuleId>) returns (r: Result<(), AccountError>)
      modifies this`modules
      ensures match SaveAddresses(old(modules), add)
              case Ok(saved) => r == Ok(()) && modules == saved - (set id | id in remove)
              case Err(e) => r == Err(e)
      ensures r.Ok? && remove == [] ==> modules == SaveAddresses(old(modules), add).value
      ensures r.Err? ==> exists i :: 0 <= i < |add| && add[i].0 == "" && SaveAddresses(old(modules), add[..i]) == Ok(modules)
    {
      assert add[..0] == [];
      for i := 0 to |add|
        invariant SaveAddresses(modules, add[i..]) == SaveAddresses(old(modules), add)
        invariant SaveAddresses(old(modules), add[..i]) == Ok(modules)
      {
        if add[i].0 == "" {
          return Err(InvalidModuleName);
        }
        SaveOneMore(old(modules), add, i);
        modules := modules[add[i].0 := add[i].1];
      }
      ghost var saved := modules;
      for i := 0 to |remove|
        invariant modules == saved - (set id | id in remove[..i])
      {
        assert remove[..i + 1] == remove[..i] + [remove[i]];
        modules := modules - {remove[i]};
      }
      assert remove[..|remove|] == remove;
      return Ok(());
    }

    static lemma {:induction false} SaveOneMore(stored: map<ModuleId, Addr>, add: seq<(ModuleId, Addr)>, i: nat)
      requires i < |add| && add[i].0 != "" && SaveAddresses(stored, add[..i]).Ok?
      ensures SaveAddresses(stored, add[..i + 1])
              == Ok(SaveAddresses(stored, add[..i]).value[add[i].0 := add[i].1])
      decreases i
    {
      if i == 0 {
        assert add[..1][1..] == [];
      } else {
        assert add[..i + 1][1..] == add[1..][..i] && add[..i][1..] == add[1..][..i - 1];
        SaveOneMore(stored[add[0].0 := add[0].1], add[1..], i - 1);
      }
    }

    // ---------------------------------------------------------------- dependency checks and the index

    static method AssertComparators(bounds: seq<Comparator>, v: Version) returns (ok: bool)
      ensures ok <==> AllMatch(bounds, v)
    {
      for i := 0 to |bounds|
        invariant forall j :: 0 <= j < i ==> Matches(bounds[j], v)
      {
        if !Matches(bounds[i], v) {
          return false;
        }
      }
      return true;
    }

    method AssertDependencyRequirements(w: World, deps: seq<Dependency>, dependent: ModuleId)
      returns (r: Option<AccountError>)
      ensures r == FirstUnmet(modules, w, deps, dependent)
      ensures r.None? <==> AllMet(modules, w, deps)
    {
      for i := 0 to |deps|
        invariant FirstUnmet(modules, w, deps[i..], dependent) == FirstUnmet(modules, w, deps, dependent)
      {
        var dep := deps[i];
        assert deps[i..][1..] == deps[i + 1..];
        if dep.id !in modules {
          return Some(DependencyNotMet(dep.id, dependent));
        }
        var cw2 := Cw2At(w, modules[dep.id]);
        if cw2.None? {
          return Some(QueryFailed);
        }
        var ok := AssertComparators(dep.versionReq, cw2.value.version);
        if !ok {
          return Some(VersionRequirementNotMet(dep.id));
        }
      }
      return None;
    }

    method RecordDependent(id: ModuleId, deps: seq<Dependency>)
      modifies this`dependents
      ensures dependents == SetAsDependent(old(dependents), id, deps)
    {
      for i := 0 to |deps|
        invariant SetAsDependent(dependents, id, deps[i..]) == SetAsDependent(old(dependents), id, deps)
      {
        assert deps[i..][1..] == deps[i + 1..];
        dependents := dependents[deps[i].id := GetOr(dependents, deps[i].id, {}) + {id}];
      }
    }

    method EraseDependent(id: ModuleId, deps: seq<Dependency>)
      modifies this`dependents
      ensures dependents == RemoveAsDependent(old(dependents), id, deps)
    {
      for i := 0 to |deps|
        invariant RemoveAsDependent(dependents, id, deps[i..]) == RemoveAsDependent(old(dependents), id, deps)
      {
        assert deps[i..][1..] == deps[i + 1..];
        dependents := dependents[deps[i].id := GetOr(dependents, deps[i].id, {}) - {id}];
      }
    }

    /** `maybe_remove_old_deps`; false stands for the panic on a missing set. */
    method MaybeRemoveOldDeps(id: ModuleId, oldDeps: seq<Dependency>, newDeps: seq<Dependency>) returns (ok: bool)
      modifies this`dependents
      ensures match RemoveStored(old(dependents), id, Without(oldDeps, newDeps))
              case Some(ix) => ok && dependents == ix
              case None => !ok
    {
      var removable := Without(oldDeps, newDeps);
      for i := 0 to |removable|
        invariant RemoveStored(dependents, id, removable[i..]) == RemoveStored(old(dependents), id, removable)
      {
        assert removable[i..][1..] == removable[i + 1..];
        if removable[i].id !in dependents {
          return false;
        }
        dependents := dependents[removable[i].id := dependents[removable[i].id] - {id}];
      }
      return true;
    }

    /** `maybe_add_new_deps`. */
    method MaybeAddNewDeps(id: ModuleId, oldDeps: seq<Dependency>, newDeps: seq<Dependency>)
      modifies this`dependents
      ensures dependents == SetAsDependent(old(dependents), id, Without(newDeps, oldDeps))
    {
      RecordDependent(id, Without(newDeps, oldDeps));
    }

    /** `assert_migrate_requirements`: the dependents are a hash set, visited in no particular order. */
    method AssertMigrateRequirements(w: World, id: ModuleId, v: Version) returns (ok: bool)
      ensures ok <==> MigrateAllowed(View(), w, id, v)
    {
      var rest := GetOr(dependents, id, {});
      while rest != {}
        invariant rest <= DependentsOf(dependents, id)
        invariant forall m :: m in DependentsOf(dependents, id) - rest ==>
                    Migrating(migrateContext, m) || Supports(modules, w, m, id, v)
        decreases rest
      {
        var m :| m in rest;
        if !Migrating(migrateContext, m) {
          if m !in modules || DataAt(w, modules[m]).None? {
            return false;
          }
          var deps := DepsAt(w, modules[m]);
          for i := 0 to |deps|
            invariant forall j :: 0 <= j < i && deps[j].id == id ==> AllMatch(deps[j].versionReq, v)
          {
            if deps[i].id == id {
              var accepted := AssertComparators(deps[i].versionReq, v);
              if !accepted {
                return false;
              }
            }
          }
        }
        rest := rest - {m};
      }
      return true;
    }

    // ---------------------------------------------------------------- install and uninstall

    /** The loop that fills the three vectors, one resolved module at a time. */
    method PlanInstall(chain: Chain, w: World, ms: seq<Module>, batch: seq<InstallConfig>)
      returns (r: Result<Plan, AccountError>)
      requires |ms| == |batch|
      ensures r == PlanFrom(modules, chain, w, ms, batch, EMPTY_PLAN)
    {
      var plan := EMPTY_PLAN;
      for i := 0 to |ms|
        invariant PlanFrom(modules, chain, w, ms[i..], batch[i..], plan) == PlanFrom(modules, chain, w, ms, batch, EMPTY_PLAN)
      {
        assert ms[i..][1..] == ms[i + 1..] && batch[i..][1..] == batch[i + 1..];
        var placed := Place(modules, chain, w, ms[i], batch[i].hasInitMsg);
        if placed.Err? {
          return Err(placed.error);
        }
        plan := Extend(plan, ms[i], placed.value);
      }
      return Ok(plan);
    }

    /** First phase of an install: fill the vectors, then write whitelist, context and addresses. */
    method BeginInstall(chain: Chain, w: World, batch: seq<InstallConfig>) returns (r: Result<(), AccountError>)
      modifies this
      ensures match InstallModules(old(View()), chain, w, batch)
              case Ok(st) => r == Ok(()) && View() == st
              case Err(e) => r == Err(e)
    {
      var resolved := ResolveAll(chain, batch);
      if resolved.None? {
        return Err(QueryModulesFailed);
      }
      ResolveAllLength(chain, batch);
      var planned := PlanInstall(chain, w, resolved.value, batch);
      if planned.Err? {
        return Err(planned.error);
      }
      var plan := planned.value;
      var listed := UpdateWhitelistedModules(plan.whitelist, []);
      if listed.Err? {
        return Err(listed.error);
      }
      installContext := plan.context;
      r := UpdateModuleAddresses(plan.account, []);
    }

    /** Second phase of an install, the reply of the module factory. */
    method RegisterInstalled(w: World) returns (r: Result<(), AccountError>)
      modifies this`dependents
      ensures match RegisterDependencies(old(View()), w)
              case Ok(st) => r == Ok(()) && View() == st
              case Err(e) => r == Err(e)
    {
      var context := installContext;
      for i := 0 to |context|
        invariant RegisterFrom(modules, dependents, w, context[i..])
                  == RegisterFrom(modules, old(dependents), w, context)
      {
        var e := context[i];
        assert context[i..][1..] == context[i + 1..];
        var invalid := CheckModuleData(w, e);
        if invalid.Some? {
          return Err(invalid.value);
        }
        if Tracked(e.m.reference) {
          var data := LoadModuleData(modules, w, e.m.id);
          if data.Err? && !e.m.reference.Standalone? {
            return Err(data.error);
          }
          var deps := if data.Ok? then data.value.dependencies else [];
          var unmet := AssertDependencyRequirements(w, deps, e.m.id);
          if unmet.Some? {
            return Err(unmet.value);
          }
          RecordDependent(e.m.id, deps);
        }
      }
      return Ok(());
    }

    method PerformUninstall(chain: Chain, w: World, id: ModuleId) returns (r: Result<(), AccountError>)
      modifies this
      ensures match UninstallModule(old(View()), chain, w, id)
              case Ok(st) => r == Ok(()) && View() == st
              case Err(e) => r == Err(e)
    {
      if id in dependents {
        if dependents[id] != {} {
          return Err(ModuleHasDependents(dependents[id]));
        }
        dependents := dependents - {id};
      }
      assert dependents == old(dependents) - {id};
      var data := LoadModuleData(modules, w, id);
      if data.Err? {
        return Err(data.error);
      }
      EraseDependent(id, data.value.dependencies);
      var m := Lookup(chain, Exactly(data.value.name, data.value.version));
      if m.None? {
        return Err(QueryFailed);
      }
      if ShouldBeWhitelisted(m.value.id, m.value.reference) {
        var listed := UpdateWhitelistedModules([], [modules[id]]);
        if listed.Err? {
          return Err(listed.error);
        }
      }
      modules := modules - {id};
      return Ok(());
    }

    // ---------------------------------------------------------------- upgrade

    method HandleAdapterMigration(chain: Chain, w: World, m: Module) returns (ok: bool)
      requires m.reference.Adapter? && m.id in modules
      modifies this
      ensures match MigrateAdapter(old(View()), chain, w, m)
              case Some(st) => ok && View() == st
              case None => !ok
    {
      var oldAddr := modules[m.id];
      var allowed := AssertMigrateRequirements(w, m.id, m.version);
      if !allowed || DataAt(w, oldAddr).None? {
        return false;
      }
      var oldDeps := DepsAt(w, oldAddr);
      var saved := UpdateModuleAddresses([(m.id, m.reference.addr)], []);
      if saved.Err? {
        return false;
      }
      migrateContext := migrateContext + [MigrateEntry(m.id, oldDeps)];
      if oldAddr !in chain.answering {
        return false;
      }
      var listed := UpdateWhitelistedModules([m.reference.addr], [oldAddr]);
      return listed.Ok?;
    }

    method HandleAppMigration(w: World, m: Module) returns (ok: bool)
      requires m.id in modules
      modifies this`migrateContext
      ensures match MigrateApp(old(View()), w, m)
              case Some(st) => ok && View() == st
              case None => !ok
    {
      var allowed := AssertMigrateRequirements(w, m.id, m.version);
      if !allowed || DataAt(w, modules[m.id]).None? {
        return false;
      }
      migrateContext := migrateContext + [MigrateEntry(m.id, DepsAt(w, modules[m.id]))];
      return true;
    }

    method SetMigrateMsgsAndContext(chain: Chain, w: World, req: UpgradeRequest) returns (ok: bool)
      modifies this
      ensures match SetMigrateContext(old(View()), chain, w, req)
              case Some(st) => ok && View() == st
              case None => !ok
    {
      var id := req.info.id;
      if id !in modules || StoredVersion(chain, w, modules[id]).None? {
        return false;
      }
      var m := RequestedModule(chain, StoredVersion(chain, w, modules[id]).value, req.info);
      if m.None? {
        return false;
      }
      match m.value.reference
      case Adapter(_) => ok := HandleAdapterMigration(chain, w, m.value);
      case App(_) => ok := HandleAppMigration(w, m.value);
      case Standalone(_) => ok := req.hasMigrateMsg;
      case _ => ok := false;
    }

    /** First phase of an upgrade: the wildcard flag, then each requested module in order, the account last. */
    method BeginUpgrade(chain: Chain, w: World, reqs: seq<UpgradeRequest>) returns (ok: bool)
      modifies this
      ensures match UpgradeModules(old(View()), chain, w, reqs)
              case Some(st) => ok && View() == st
              case None => !ok
    {
      if reqs == [] {
        return false;
      }
      callingToAsAdmin := Some(CALLING_TO_AS_ADMIN_WILD_CARD);
      ghost var start := View();
      var done: seq<ModuleId> := [];
      for i := 0 to |reqs|
        invariant UpgradeEach(View(), chain, w, reqs[i..], done) == UpgradeEach(start, chain, w, reqs, [])
      {
        assert reqs[i..][1..] == reqs[i + 1..];
        var id := reqs[i].info.id;
        if id in done {
          return false;
        }
        done := done + [id];
        if id != ACCOUNT {
          ok := SetMigrateMsgsAndContext(chain, w, reqs[i]);
          if !ok {
            return false;
          }
        }
      }
      return AccountUpgradable(chain, reqs);
    }

    /** One turn of the loop below: move the module's entries to its new dependencies and check those. */
    method AssertOneDependencyRequirements(w: World, e: MigrateEntry) returns (ok: bool)
      modifies this`dependents
      ensures match FinishEntry(modules, old(dependents), w, e)
              case Some(ix) => ok && dependents == ix
              case None => !ok
    {
      var data := LoadModuleData(modules, w, e.id);
      if data.Err? {
        return false;
      }
      var newDeps := data.value.dependencies;
      var removed := MaybeRemoveOldDeps(e.id, e.oldDeps, newDeps);
      if !removed {
        return false;
      }
      MaybeAddNewDeps(e.id, e.oldDeps, newDeps);
      var unmet := AssertDependencyRequirements(w, newDeps, e.id);
      return unmet.None?;
    }

    /** Second phase of an upgrade, the reply to its last message. */
    method AssertModulesDependencyRequirements(w: World) returns (ok: bool)
      modifies this
      ensures match FinishUpgrade(old(View()), w)
              case Some(st) => ok && View() == st
              case None => !ok
    {
      var context := migrateContext;
      for i := 0 to |context|
        invariant modules == old(modules) && whitelist == old(whitelist) && installContext == old(installContext)
        invariant FinishFrom(modules, dependents, w, context[i..])
                  == FinishFrom(modules, old(dependents), w, context)
      {
        assert context[i..][1..] == context[i + 1..];
        ok := AssertOneDependencyRequirements(w, context[i]);
        if !ok {
          return false;
        }
      }
      callingToAsAdmin := None;
      migrateContext := [];
      return true;
    }

    // ---------------------------------------------------------------- transactions

    /** Putting back every item, as the chain does when a transaction fails. */
    method Restore(m: map<ModuleId, Addr>, d: Index, l: seq<Addr>, i: seq<InstallEntry>, g: seq<MigrateEntry>, c: Option<Addr>)
      modifies this
      ensures View() == Storage(m, d, l, i, g, c)
    {
      modules, dependents, whitelist := m, d, l;
      installContext, migrateContext, callingToAsAdmin := i, g, c;
    }

    /** A whole transaction, with the given state of the other contracts when the replies run. */
    method Execute(a: Action, w: World, ghost kinds: map<ModuleId, ModuleReference>)
      modifies this
      ensures View() == Step(Sys(old(View()), w, kinds), a).st
    {
      var m, d, l, i, g, c := modules, dependents, whitelist, installContext, migrateContext, callingToAsAdmin;
      var ok := true;
      match a {
        case Install(chain, batch, after) =>
          var begun := BeginInstall(chain, w, batch);
          if begun.Ok? {
            begun := RegisterInstalled(after);
          }
          ok := begun.Ok?;
        case Uninstall(chain, id) =>
          var done := PerformUninstall(chain, w, id);
          ok := done.Ok?;
        case Upgrade(chain, reqs, after) =>
          ok := BeginUpgrade(chain, w, reqs);
          if ok {
            ok := AssertModulesDependencyRequirements(after);
          }
        case Elsewhere(_) =>
      }
      if !ok {
        Restore(m, d, l, i, g, c);
      }
    }
  }
}
