/**
 What an install demands, read off the registry, the raw data of other contracts and the account's own modules: where a
 request can be placed, and which contracts the reply accepts.
 */
module InstallChecks {
  import opened Basics
  import opened Cosmos
  import opened ModuleTypes
  import opened ModuleManager

  /** The registry resolves a request to a registered version: the one asked for, or the newest release. */
  lemma LookupIff(chain: Chain, info: ModuleInfo, m: Module)
    ensures Lookup(chain, info) == Some(m) <==>
            && m.id == info.id
            && (m.id, m.version) in chain.references && chain.references[(m.id, m.version)] == m.reference
            && (info.Exactly? ==> m.version == info.version)
            && (info.LatestOf? ==> m.id in chain.latest && chain.latest[m.id] == m.version)
  {}

  // ------------------------------------------------------------------ placing a request

  /** The code of a module that is instantiated for the account. */
  function CodeOf(r: ModuleReference): Option<nat> {
    match r
    case App(code) => Some(code)
    case Standalone(code) => Some(code)
    case _ => None
  }

  /**
   The module can be placed: it is not installed and not an account, and if it has to be instantiated its code is known,
   no contract lives at the derived address yet, and there is an init message.
   */
  ghost predicate Placeable(modules: map<ModuleId, Addr>, chain: Chain, w: World, m: Module, hasInitMsg: bool) {
    && m.id !in modules && !m.reference.AccountRef?
    && (CodeOf(m.reference).Some? ==>
          && CodeOf(m.reference).value in chain.derived
          && chain.derived[CodeOf(m.reference).value] !in w
          && hasInitMsg)
  }

  /** Where it will live: at the address derived from its code, or where it already is. */
  function HomeOf(chain: Chain, m: Module): Addr {
    match m.reference
    case App(code) => GetOr(chain.derived, code, "")
    case Standalone(code) => GetOr(chain.derived, code, "")
    case Adapter(a) => a
    case Native(a) => a
    case Service(a) => a
    case AccountRef(_) => ""
  }

  /** A request is placed exactly when it can be, at its home; the reply is told the address of what is instantiated. */
  lemma PlaceIff(modules: map<ModuleId, Addr>, chain: Chain, w: World, m: Module, hasInitMsg: bool)
    ensures var r := Place(modules, chain, w, m, hasInitMsg);
            && (r.Ok? <==> Placeable(modules, chain, w, m, hasInitMsg))
            && (r.Ok? ==> r.value.addr == HomeOf(chain, m))
            && (r.Ok? ==> r.value.context == if CodeOf(m.reference).Some? then Some(HomeOf(chain, m)) else None)
  {}

  /** Why it cannot be placed, in the order of the checks. */
  lemma PlaceErrors(modules: map<ModuleId, Addr>, chain: Chain, w: World, m: Module, hasInitMsg: bool)
    ensures var r, code := Place(modules, chain, w, m, hasInitMsg), CodeOf(m.reference);
            && (m.id in modules ==> r == Err(ModuleAlreadyInstalled(m.id)))
            && (m.id !in modules && m.reference.AccountRef? ==> r == Err(ModuleNotInstallable(m.id)))
            && (m.id !in modules && code.Some? && code.value !in chain.derived ==> r == Err(QueryFailed))
            && (m.id !in modules && code.Some? && code.value in chain.derived && chain.derived[code.value] in w ==>
                  r == Err(ProhibitedReinstall))
            && (m.id !in modules && code.Some? && code.value in chain.derived && chain.derived[code.value] !in w && !hasInitMsg ==>
                  r == Err(InitMsgMissing(m.id)))
  {}

  /** The kinds that the whitelist receives: adapters, apps, and of the natives only the IBC client. */
  lemma ListedKinds(id: ModuleId, r: ModuleReference)
    ensures r.Adapter? || r.App? ==> ShouldBeWhitelisted(id, r)
    ensures r.Standalone? || r.Service? || r.AccountRef? ==> !ShouldBeWhitelisted(id, r)
    ensures r.Native? ==> (ShouldBeWhitelisted(id, r) <==> id == "abstract:ibc-client")
  {}

  // ------------------------------------------------------------------ what the reply accepts

  /** The contract at the address is the registered module: its cw2 data and, for apps and adapters, its module data. */
  ghost predicate Genuine(w: World, m: Module, a: Addr) {
    match m.reference
    case Standalone(_) => Cw2At(w, a).Some? ==> Cw2At(w, a).value.version == m.version
    case Service(_) => Cw2At(w, a).Some? ==> Cw2At(w, a).value.version == m.version
    case Native(_) => Cw2At(w, a) == Some(ContractVersion(m.id, m.version))
    case AccountRef(_) => Cw2At(w, a) == Some(ContractVersion(m.id, m.version))
    case App(_) => Cw2At(w, a) == Some(ContractVersion(m.id, m.version)) && Labelled(w, m, a)
    case Adapter(_) => Cw2At(w, a) == Some(ContractVersion(m.id, m.version)) && Labelled(w, m, a)
  }

  ghost predicate Labelled(w: World, m: Module, a: Addr) {
    DataAt(w, a).Some? && DataAt(w, a).value.name == m.id && DataAt(w, a).value.version == m.version
  }

  /** The address of an entry: its reference's own, or the one it was instantiated at. */
  function EntryAddress(e: InstallEntry): Option<Addr> {
    match e.m.reference
    case Adapter(a) => Some(a)
    case Native(a) => Some(a)
    case Service(a) => Some(a)
    case _ => e.address
  }

  /** The check of an entry passes exactly for a genuine contract, or when there is no address to look at. */
  lemma CheckIff(w: World, e: InstallEntry)
    ensures CheckModuleData(w, e).None? <==> (EntryAddress(e).Some? ==> Genuine(w, e.m, EntryAddress(e).value))
  {}

  /** A refused entry lacks data that its kind must have, or has other data than was registered. */
  lemma CheckErrors(w: World, e: InstallEntry)
    requires CheckModuleData(w, e).Some?
    ensures EntryAddress(e).Some?
    ensures var a := EntryAddress(e).value;
            var mustHave := !e.m.reference.Standalone? && !e.m.reference.Service?;
            var labelled := e.m.reference.App? || e.m.reference.Adapter?;
            CheckModuleData(w, e).value
            == if mustHave && (Cw2At(w, a).None?
                               || (labelled && Cw2At(w, a).value == ContractVersion(e.m.id, e.m.version) && DataAt(w, a).None?))
               then QueryFailed
               else UnequalModuleData
  {}
}
