/**
 The account's module operations as functions on its storage: the two phases of an install, uninstall,
 and the two phases of an upgrade. An error means the chain rolls the whole transaction back.
 */
module ModuleManager {
  import opened Basics
  import opened Cosmos
  import opened Semver
  import opened ModuleTypes
  import opened Whitelist
  import opened Dependents

  /** One entry of `INSTALL_MODULES_CONTEXT`. */
  datatype InstallEntry = InstallEntry(m: Module, address: Option<Addr>)

  /** One entry of `MIGRATE_CONTEXT`: a module being upgraded and the dependencies it had before. */
  datatype MigrateEntry = MigrateEntry(id: ModuleId, oldDeps: seq<Dependency>)

  datatype Storage = Storage(
    modules: map<ModuleId, Addr>,
    dependents: Index,
    whitelist: seq<Addr>,
    installContext: seq<InstallEntry>,
    migrateContext: seq<MigrateEntry>,
    callingToAsAdmin: Option<Addr>)

  /** The storage of a freshly instantiated account. */
  const FRESH_STORAGE := Storage(map[], map[], [], [], [], None)

  // ------------------------------------------------------------------ reading other contracts

  function LoadModuleData(modules: map<ModuleId, Addr>, w: World, id: ModuleId): Result<ModuleData, AccountError> {
    if id !in modules then Err(ModuleNotFound(id))
    else if DataAt(w, modules[id]).None? then Err(QueryFailed)
    else Ok(DataAt(w, modules[id]).value)
  }

  /** `assert_dependency_requirements`: the first dependency that is not met, if any. */
  function FirstUnmet(modules: map<ModuleId, Addr>, w: World, deps: seq<Dependency>, dependent: ModuleId)
    : (r: Option<AccountError>)
    ensures r.None? <==> AllMet(modules, w, deps)
    decreases deps
  {
    if deps == [] then None
    else
      var dep := deps[0];
      assert AllMet(modules, w, deps) <==> DependencyMet(modules, w, dep) && AllMet(modules, w, deps[1..]) by {
        assert forall i :: 0 < i < |deps| ==> deps[i] == deps[1..][i - 1];
      }
      if dep.id !in modules then Some(DependencyNotMet(dep.id, dependent))
      else if Cw2At(w, modules[dep.id]).None? then Some(QueryFailed)
      else if !AllMatch(dep.versionReq, Cw2At(w, modules[dep.id]).value.version) then Some(VersionRequirementNotMet(dep.id))
      else FirstUnmet(modules, w, deps[1..], dependent)
  }

  /** `assert_module_data_validity`: None when the contract is what the registry says it is. */
  function CheckModuleData(w: World, e: InstallEntry): Option<AccountError> {
    var r := e.m.reference;
    var address := if r.Adapter? || r.Native? || r.Service? then Some(r.addr) else e.address;
    if address.None? then None
    else
      var cw2 := Cw2At(w, address.value);
      if r.Standalone? || r.Service? then
        if cw2.Some? && cw2.value.version != e.m.version then Some(UnequalModuleData) else None
      else if cw2.None? then Some(QueryFailed)
      else if cw2.value != ContractVersion(e.m.id, e.m.version) then Some(UnequalModuleData)
      else if r.Native? || r.AccountRef? then None
      else
        var data := DataAt(w, address.value);
        if data.None? then Some(QueryFailed)
        else if data.value.name != e.m.id || data.value.version != e.m.version then Some(UnequalModuleData)
        else None
  }

  // ------------------------------------------------------------------ install

  datatype InstallConfig = InstallConfig(info: ModuleInfo, hasInitMsg: bool)

  /** The vectors `_install_modules` fills before it writes anything. */
  datatype Plan = Plan(whitelist: seq<Addr>, account: seq<(ModuleId, Addr)>, context: seq<InstallEntry>)

  const EMPTY_PLAN := Plan([], [], [])

  function ResolveAll(chain: Chain, batch: seq<InstallConfig>): Option<seq<Module>> {
    if batch == [] then Some([])
    else
      match (Lookup(chain, batch[0].info), ResolveAll(chain, batch[1..]))
      case (Some(m), Some(rest)) => Some([m] + rest)
      case _ => None
  }

  /** Where a module of the batch will live; `context` is what the reply is told about its address. */
  datatype Placement = Placement(addr: Addr, context: Option<Addr>)

  function Place(modules: map<ModuleId, Addr>, chain: Chain, w: World, m: Module, hasInitMsg: bool)
    : Result<Placement, AccountError>
  {
    if m.id in modules then Err(ModuleAlreadyInstalled(m.id))
    else match m.reference
      case Adapter(a) => Ok(Placement(a, None))
      case Native(a) => Ok(Placement(a, None))
      case Service(a) => Ok(Placement(a, None))
      case App(code) => PlaceCode(chain, w, m, code, hasInitMsg)
      case Standalone(code) => PlaceCode(chain, w, m, code, hasInitMsg)
      case AccountRef(_) => Err(ModuleNotInstallable(m.id))
  }

  function PlaceCode(chain: Chain, w: World, m: Module, code: nat, hasInitMsg: bool): Result<Placement, AccountError> {
    if code !in chain.derived then Err(QueryFailed)
    else if chain.derived[code] in w then Err(ProhibitedReinstall)
    else if !hasInitMsg then Err(InitMsgMissing(m.id))
    else Ok(Placement(chain.derived[code], Some(chain.derived[code])))
  }

  function Extend(plan: Plan, m: Module, p: Placement): Plan {
    Plan(if ShouldBeWhitelisted(m.id, m.reference) then plan.whitelist + [p.addr] else plan.whitelist,
         plan.account + [(m.id, p.addr)],
         plan.context + [InstallEntry(m, p.context)])
  }

  function PlanFrom(modules: map<ModuleId, Addr>, chain: Chain, w: World, ms: seq<Module>, batch: seq<InstallConfig>,
                    plan: Plan): Result<Plan, AccountError>
    requires |ms| == |batch|
    decreases |ms|
  {
    if ms == [] then Ok(plan)
    else match Place(modules, chain, w, ms[0], batch[0].hasInitMsg)
      case Err(e) => Err(e)
      case Ok(p) => PlanFrom(modules, chain, w, ms[1..], batch[1..], Extend(plan, ms[0], p))
  }

  /** The saving half of `update_module_addresses`. */
  function SaveAddresses(modules: map<ModuleId, Addr>, add: seq<(ModuleId, Addr)>): Result<map<ModuleId, Addr>, AccountError>
    decreases add
  {
    if add == [] then Ok(modules)
    else if add[0].0 == "" then Err(InvalidModuleName)
    else SaveAddresses(modules[add[0].0 := add[0].1], add[1..])
  }

  lemma {:induction false} ResolveAllLength(chain: Chain, batch: seq<InstallConfig>)
    ensures ResolveAll(chain, batch).Some? ==> |ResolveAll(chain, batch).value| == |batch|
  {
    if batch != [] {
      ResolveAllLength(chain, batch[1..]);
    }
  }

  /** First phase: `_install_modules`, up to the message to the module factory. */
  function InstallModules(st: Storage, chain: Chain, w: World, batch: seq<InstallConfig>): Result<Storage, AccountError> {
    match ResolveAll(chain, batch)
    case None => Err(QueryModulesFailed)
    case Some(ms) =>
      ResolveAllLength(chain, batch);
      match PlanFrom(st.modules, chain, w, ms, batch, EMPTY_PLAN)
      case Err(e) => Err(e)
      case Ok(plan) =>
        match UpdateWhitelist(st.whitelist, plan.whitelist, [])
        case Err(e) => Err(e)
        case Ok(whitelist) =>
          match SaveAddresses(st.modules, plan.account)
          case Err(e) => Err(e)
          case Ok(modules) =>
            Ok(st.(whitelist := whitelist, installContext := plan.context, modules := modules))
  }

  /** One turn of the loop in `register_dependencies`. */
  function RegisterEntry(modules: map<ModuleId, Addr>, ix: Index, w: World, e: InstallEntry): Result<Index, AccountError> {
    if CheckModuleData(w, e).Some? then Err(CheckModuleData(w, e).value)
    else if !Tracked(e.m.reference) then Ok(ix)
    else
      match LoadModuleData(modules, w, e.m.id)
      case Err(err) =>
        // dependencies stored in a standalone are optional
        if e.m.reference.Standalone? then Ok(ix) else Err(err)
      case Ok(data) =>
        match FirstUnmet(modules, w, data.dependencies, e.m.id)
        case Some(err) => Err(err)
        case None => Ok(SetAsDependent(ix, e.m.id, data.dependencies))
  }

  function RegisterFrom(modules: map<ModuleId, Addr>, ix: Index, w: World, context: seq<InstallEntry>)
    : Result<Index, AccountError>
    decreases context
  {
    if context == [] then Ok(ix)
    else match RegisterEntry(modules, ix, w, context[0])
      case Err(e) => Err(e)
      case Ok(next) => RegisterFrom(modules, next, w, context[1..])
  }

  /** Second phase: the reply after the factory has instantiated the batch. */
  function RegisterDependencies(st: Storage, w: World): Result<Storage, AccountError> {
    match RegisterFrom(st.modules, st.dependents, w, st.installContext)
    case Err(e) => Err(e)
    case Ok(ix) => Ok(st.(dependents := ix))
  }

  // ------------------------------------------------------------------ uninstall

  function UninstallModule(st: Storage, chain: Chain, w: World, id: ModuleId): Result<Storage, AccountError> {
    if DependentsOf(st.dependents, id) != {} then Err(ModuleHasDependents(DependentsOf(st.dependents, id)))
    else
      match LoadModuleData(st.modules, w, id)
      case Err(e) => Err(e)
      case Ok(data) =>
        var dependents := RemoveAsDependent(st.dependents - {id}, id, data.dependencies);
        match Lookup(chain, Exactly(data.name, data.version))
        case None => Err(QueryFailed)
        case Some(m) =>
          if !ShouldBeWhitelisted(m.id, m.reference) then
            Ok(st.(dependents := dependents, modules := st.modules - {id}))
          else
            match UpdateWhitelist(st.whitelist, [], [st.modules[id]])
            case Err(e) => Err(e)
            case Ok(whitelist) =>
              Ok(st.(dependents := dependents, whitelist := whitelist, modules := st.modules - {id}))
  }

  // ------------------------------------------------------------------ upgrade

  /** A module to upgrade, and whether the caller supplied a migrate message. */
  datatype UpgradeRequest = UpgradeRequest(info: ModuleInfo, hasMigrateMsg: bool)

  predicate Migrating(context: seq<MigrateEntry>, id: ModuleId) {
    exists i :: 0 <= i < |context| && context[i].id == id
  }

  /** A dependent that is not migrating can be read and every requirement it has on id accepts v. */
  predicate Supports(modules: map<ModuleId, Addr>, w: World, dependent: ModuleId, id: ModuleId, v: Version) {
    && dependent in modules
    && DataAt(w, modules[dependent]).Some?
    && var deps := DepsAt(w, modules[dependent]);
       forall i :: 0 <= i < |deps| && deps[i].id == id ==> AllMatch(deps[i].versionReq, v)
  }

  /** `assert_migrate_requirements`. */
  predicate MigrateAllowed(st: Storage, w: World, id: ModuleId, v: Version) {
    forall m :: m in DependentsOf(st.dependents, id) ==>
      Migrating(st.migrateContext, m) || Supports(st.modules, w, m, id, v)
  }

  const MAX_TITLE_LENGTH := 64
  const DANGEROUS_CHARS := ['"', '\'', '=', '>', '<']

  /** `ModuleInfo::from_id` accepts the name: one colon, and a valid namespace in front of it. */
  predicate ModuleIdFormat(name: string) {
    exists i :: 0 <= i < |name| && SplitsAt(name, i)
  }

  predicate SplitsAt(name: string, i: nat)
    requires i < |name|
  {
    && name[i] == ':' && 1 <= i <= MAX_TITLE_LENGTH
    && (forall j :: 0 <= j < |name| && j != i ==> name[j] != ':')
    && (forall j :: 0 <= j < i ==> name[j] !in DANGEROUS_CHARS)
  }

  /** `query_module_version`: the cw2 version, or the registered one when cw2 is absent or ill-named. */
  function StoredVersion(chain: Chain, w: World, a: Addr): Option<Version> {
    if Cw2At(w, a).Some? && ModuleIdFormat(Cw2At(w, a).value.contract) then Some(Cw2At(w, a).value.version)
    else if a in chain.fallbackVersions then Some(chain.fallbackVersions[a])
    else None
  }

  /** `query_module`: the requested module, refused when an explicit version is older than the stored one. */
  function RequestedModule(chain: Chain, stored: Version, info: ModuleInfo): Option<Module> {
    if info.Exactly? && VersionLess(info.version, stored) then None else Lookup(chain, info)
  }

  /** `handle_adapter_migration`: the account starts using the adapter's new contract. */
  function MigrateAdapter(st: Storage, chain: Chain, w: World, m: Module): Option<Storage>
    requires m.reference.Adapter? && m.id in st.modules
  {
    var oldAddr := st.modules[m.id];
    if !MigrateAllowed(st, w, m.id, m.version) || DataAt(w, oldAddr).None? then None
    else
      match SaveAddresses(st.modules, [(m.id, m.reference.addr)])
      case Err(_) => None
      case Ok(modules) =>
        if oldAddr !in chain.answering then None
        else
          match UpdateWhitelist(st.whitelist, [m.reference.addr], [oldAddr])
          case Err(_) => None
          case Ok(whitelist) =>
            Some(st.(modules := modules,
                     whitelist := whitelist,
                     migrateContext := st.migrateContext + [MigrateEntry(m.id, DepsAt(w, oldAddr))]))
  }

  /** `handle_app_migration`. */
  function MigrateApp(st: Storage, w: World, m: Module): Option<Storage>
    requires m.id in st.modules
  {
    if !MigrateAllowed(st, w, m.id, m.version) || DataAt(w, st.modules[m.id]).None? then None
    else Some(st.(migrateContext := st.migrateContext + [MigrateEntry(m.id, DepsAt(w, st.modules[m.id]))]))
  }

  /** `set_migrate_msgs_and_context`. A standalone only gets its migrate message: nothing is checked or recorded. */
  function SetMigrateContext(st: Storage, chain: Chain, w: World, req: UpgradeRequest): Option<Storage> {
    if req.info.id !in st.modules || StoredVersion(chain, w, st.modules[req.info.id]).None? then None
    else
      match RequestedModule(chain, StoredVersion(chain, w, st.modules[req.info.id]).value, req.info)
      case None => None
      case Some(m) =>
        match m.reference
        case Adapter(_) => MigrateAdapter(st, chain, w, m)
        case App(_) => MigrateApp(st, w, m)
        case Standalone(_) => if req.hasMigrateMsg then Some(st) else None
        case _ => None
  }

  /** The loop of `upgrade_modules`; `done` holds the ids already met. */
  function UpgradeEach(st: Storage, chain: Chain, w: World, reqs: seq<UpgradeRequest>, done: seq<ModuleId>)
    : Option<Storage>
    decreases reqs
  {
    if reqs == [] then Some(st)
    else if reqs[0].info.id in done then None
    else if reqs[0].info.id == ACCOUNT then UpgradeEach(st, chain, w, reqs[1..], done + [ACCOUNT])
    else
      match SetMigrateContext(st, chain, w, reqs[0])
      case None => None
      case Some(next) => UpgradeEach(next, chain, w, reqs[1..], done + [reqs[0].info.id])
  }

  /** `self_upgrade_msg` accepts the requested account version. */
  predicate AccountUpgradable(chain: Chain, reqs: seq<UpgradeRequest>) {
    forall i :: 0 <= i < |reqs| && reqs[i].info.id == ACCOUNT ==>
      var m := RequestedModule(chain, chain.accountVersion, reqs[i].info);
      m.Some? && m.value.reference.AccountRef?
  }

  /** First phase of an upgrade, up to the migrate messages. */
  function UpgradeModules(st: Storage, chain: Chain, w: World, reqs: seq<UpgradeRequest>): Option<Storage> {
    if reqs == [] || !AccountUpgradable(chain, reqs) then None
    else UpgradeEach(st.(callingToAsAdmin := Some(CALLING_TO_AS_ADMIN_WILD_CARD)), chain, w, reqs, [])
  }

  /** One turn of the loop in `assert_modules_dependency_requirements`. */
  function FinishEntry(modules: map<ModuleId, Addr>, ix: Index, w: World, e: MigrateEntry): Option<Index> {
    match LoadModuleData(modules, w, e.id)
    case Err(_) => None
    case Ok(data) =>
      match Retarget(ix, e.id, e.oldDeps, data.dependencies)
      case None => None
      case Some(next) => if AllMet(modules, w, data.dependencies) then Some(next) else None
  }

  function FinishFrom(modules: map<ModuleId, Addr>, ix: Index, w: World, context: seq<MigrateEntry>): Option<Index>
    decreases context
  {
    if context == [] then Some(ix)
    else match FinishEntry(modules, ix, w, context[0])
      case None => None
      case Some(next) => FinishFrom(modules, next, w, context[1..])
  }

  /** Second phase of an upgrade: the reply after all migrations. */
  function FinishUpgrade(st: Storage, w: World): Option<Storage> {
    match FinishFrom(st.modules, st.dependents, w, st.migrateContext)
    case None => None
    case Some(ix) => Some(st.(dependents := ix, migrateContext := [], callingToAsAdmin := None))
  }
}
