/**
 What the account reads from the rest of the chain: registered modules, the cw2 and module data of
 other contracts, and the addresses contracts will be instantiated at.
 */
module ModuleTypes {
  import opened Basics
  import opened Cosmos
  import opened Semver

  type ModuleId = string

  const ACCOUNT: ModuleId := "abstract:account"
  const IBC_CLIENT: ModuleId := "abstract:ibc-client"

  datatype Dependency = Dependency(id: ModuleId, versionReq: seq<Comparator>)

  datatype ContractVersion = ContractVersion(contract: string, version: Version)

  datatype ModuleData = ModuleData(name: ModuleId, version: Version, dependencies: seq<Dependency>)

  /** The two raw items of a contract that the account queries. */
  datatype Contract = Contract(cw2: Option<ContractVersion>, data: Option<ModuleData>)

  /** Every contract on the chain except the account itself. */
  type World = map<Addr, Contract>

  datatype ModuleReference =
    | AccountRef(codeId: nat)
    | Native(addr: Addr)
    | Adapter(addr: Addr)
    | App(codeId: nat)
    | Standalone(codeId: nat)
    | Service(addr: Addr)

  /** A module whose version the registry has resolved. */
  datatype Module = Module(id: ModuleId, version: Version, reference: ModuleReference)

  datatype ModuleInfo = LatestOf(id: ModuleId) | Exactly(id: ModuleId, version: Version)

  /**
   The registry and the chain's code store: registered references, the newest release of each module,
   the instantiate2 address the factory will use for a code and this account's salt, the registered
   version of contracts without usable cw2 data, the addresses that answer the authorized-addresses query,
   and the version of the account contract itself.
   */
  datatype Chain = Chain(
    references: map<(ModuleId, Version), ModuleReference>,
    latest: map<ModuleId, Version>,
    derived: map<nat, Addr>,
    fallbackVersions: map<Addr, Version>,
    answering: set<Addr>,
    accountVersion: Version)

  datatype AccountError =
    | QueryModulesFailed
    | ModuleAlreadyInstalled(id: ModuleId)
    | QueryFailed
    | ProhibitedReinstall
    | InitMsgMissing(id: ModuleId)
    | ModuleNotInstallable(id: ModuleId)
    | InvalidModuleName
    | ModuleNotFound(id: ModuleId)
    | UnequalModuleData
    | DependencyNotMet(dependency: ModuleId, dependent: ModuleId)
    | VersionRequirementNotMet(id: ModuleId)
    | ModuleHasDependents(dependents: set<ModuleId>)
    | ModuleLimitReached
    | AlreadyWhitelisted(addr: Addr)
    | NotWhitelisted

  /** Modules whose dependencies the account keeps track of. */
  predicate Tracked(r: ModuleReference) {
    r.App? || r.Adapter? || r.Standalone?
  }

  /** `Module::should_be_whitelisted`. */
  predicate ShouldBeWhitelisted(id: ModuleId, r: ModuleReference) {
    r.Adapter? || r.App? || (r.Native? && id == IBC_CLIENT)
  }

  function Lookup(chain: Chain, info: ModuleInfo): Option<Module> {
    if info.LatestOf? then
      if info.id in chain.latest && (info.id, chain.latest[info.id]) in chain.references then
        Some(Module(info.id, chain.latest[info.id], chain.references[(info.id, chain.latest[info.id])]))
      else None
    else if (info.id, info.version) in chain.references then
      Some(Module(info.id, info.version, chain.references[(info.id, info.version)]))
    else None
  }

  function Cw2At(w: World, a: Addr): Option<ContractVersion> {
    if a in w then w[a].cw2 else None
  }

  function DataAt(w: World, a: Addr): Option<ModuleData> {
    if a in w then w[a].data else None
  }

  /** The declared dependencies of the contract at a; none when it stores no module data. */
  function DepsAt(w: World, a: Addr): seq<Dependency> {
    if DataAt(w, a).Some? then DataAt(w, a).value.dependencies else []
  }

  function DepIds(deps: seq<Dependency>): set<ModuleId> {
    set i | 0 <= i < |deps| :: deps[i].id
  }

  ghost predicate DistinctIds(deps: seq<Dependency>) {
    forall i, j :: 0 <= i < j < |deps| ==> deps[i].id != deps[j].id
  }

  /** `assert_comparators`: every comparator accepts the version. */
  predicate AllMatch(bounds: seq<Comparator>, v: Version) {
    forall i :: 0 <= i < |bounds| ==> Matches(bounds[i], v)
  }

  /** The dependency is installed at a version that its requirement accepts. */
  predicate DependencyMet(modules: map<ModuleId, Addr>, w: World, dep: Dependency) {
    && dep.id in modules
    && Cw2At(w, modules[dep.id]).Some?
    && AllMatch(dep.versionReq, Cw2At(w, modules[dep.id]).value.version)
  }

  predicate AllMet(modules: map<ModuleId, Addr>, w: World, deps: seq<Dependency>) {
    forall i :: 0 <= i < |deps| ==> DependencyMet(modules, w, deps[i])
  }
}
