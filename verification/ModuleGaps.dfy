/**
 Concrete accounts at the edges of the results about modules: each is reached from a fresh account by installs, and
 shows that a law fails where its exact condition does.
 */
module ModuleGaps {
  import opened Basics
  import opened Cosmos
  import opened Semver
  import opened ModuleTypes
  import opened Whitelist
  import opened Dependents
  import opened ModuleManager
  import opened ModuleRuns
  import opened ModuleUpgrades
  import opened ModuleHistory
  import opened ModuleWhitelist
  import opened ModuleProgress

  const V1 := Version(1, 0, 0, [])
  const V2 := Version(2, 0, 0, [])

  /** A chain on which only the given versions are registered. */
  function Registered(references: map<(ModuleId, Version), ModuleReference>): Chain {
    Chain(references, map[], map[1 := "addr", 2 := "user"], map["addr" := V1], {}, V1)
  }

  /** A freshly instantiated account in the given world. */
  function Fresh(w: World): Sys {
    Sys(FRESH_STORAGE, w, map[])
  }

  /** The step of an install whose two phases are known. */
  lemma InstallStep(w: World, chain: Chain, batch: seq<InstallConfig>, after: World, pending: Storage, ix: Index)
    requires InstallModules(FRESH_STORAGE, chain, w, batch) == Ok(pending)
    requires RegisterFrom(pending.modules, pending.dependents, after, pending.installContext) == Ok(ix)
    ensures Step(Fresh(w), Install(chain, batch, after))
            == Sys(pending.(dependents := ix), after, RecordKinds(map[], pending.installContext))
  {}

  /** The step of an upgrade whose two phases are known. */
  lemma UpgradeStep(s: Sys, chain: Chain, reqs: seq<UpgradeRequest>, after: World, pending: Storage, st: Storage)
    requires UpgradeModules(s.st, chain, s.w, reqs) == Some(pending) && FinishUpgrade(pending, after) == Some(st)
    ensures Step(s, Upgrade(chain, reqs, after)) == Sys(st, after, RecordUpgrades(s.kinds, chain, reqs))
  {}

  /** The first phase of an upgrade of one module. */
  lemma UpgradeOne(st: Storage, chain: Chain, w: World, req: UpgradeRequest, next: Storage)
    requires req.info.id != ACCOUNT
    requires SetMigrateContext(st.(callingToAsAdmin := Some(CALLING_TO_AS_ADMIN_WILD_CARD)), chain, w, req) == Some(next)
    ensures UpgradeModules(st, chain, w, [req]) == Some(next)
  {
    assert [req][1..] == [] && AccountUpgradable(chain, [req]);
    assert UpgradeEach(next, chain, w, [req][1..], [] + [req.info.id]) == Some(next);
  }

  // ------------------------------------------------------------------ one module, upgraded

  const LIB: ModuleId := "lib:standalone"
  const OTHER: ModuleId := "lib:other"

  /** The contract at "addr", whose cw2 name is not of the form namespace:name. */
  function LibWorld(v: Version, deps: seq<Dependency>): World {
    map["addr" := Contract(Some(ContractVersion("lib", v)), Some(ModuleData(LIB, v, deps)))]
  }

  function LibInstall(reference: ModuleReference, after: World): Action {
    Install(Registered(map[(LIB, V1) := reference]), [InstallConfig(Exactly(LIB, V1), true)], after)
  }

  /** An account with LIB alone, installed as the given kind. */
  function LibInstalled(reference: ModuleReference, context: Option<Addr>, deps: seq<Dependency>): Sys {
    Sys(FRESH_STORAGE.(modules := map[LIB := "addr"], installContext := [InstallEntry(Module(LIB, V1, reference), context)]),
        LibWorld(V1, deps), map[LIB := reference])
  }

  const LIB_STANDALONE := LibInstalled(Standalone(1), Some("addr"), [])

  const LIB_SERVICE := LibInstalled(Service("addr"), None, [Dependency(OTHER, [])])

  lemma LibPending(w: World, reference: ModuleReference, context: Option<Addr>)
    requires (reference == Standalone(1) && context == Some("addr") && "addr" !in w)
             || (reference == Service("addr") && context == None)
    ensures var a := LibInstall(reference, w);
            InstallModules(FRESH_STORAGE, a.chain, w, a.batch) == Ok(LibInstalled(reference, context, []).st)
  {
    var a := LibInstall(reference, w);
    var m := Module(LIB, V1, reference);
    assert Lookup(a.chain, a.batch[0].info) == Some(m);
    assert a.batch[1..] == [] && ResolveAll(a.chain, []) == Some([]) && [m] + [] == [m];
    assert ResolveAll(a.chain, a.batch) == Some([m]);
    var plan := Plan([], [(LIB, "addr")], [InstallEntry(m, context)]);
    assert [m][1..] == [] && Extend(EMPTY_PLAN, m, Placement("addr", context)) == plan;
    assert PlanFrom(map[], a.chain, w, [m], a.batch, EMPTY_PLAN) == Ok(plan);
    assert |LIB| > 0 && plan.account[1..] == [];
    var saved: map<ModuleId, Addr> := map[][LIB := "addr"];
    assert SaveAddresses(saved, []) == Ok(saved) && SaveAddresses(map[], plan.account) == Ok(saved);
    WhitelistFromEmpty([]);
  }

  /** The two accounts are what one install makes of a fresh one. */
  lemma LibIsInstalled()
    ensures Step(Fresh(map[]), LibInstall(Standalone(1), LIB_STANDALONE.w)) == LIB_STANDALONE
    ensures Step(Fresh(LIB_SERVICE.w), LibInstall(Service("addr"), LIB_SERVICE.w)) == LIB_SERVICE
  {
    LibRegistered(LIB_STANDALONE, Standalone(1));
    LibRegistered(LIB_SERVICE, Service("addr"));
    var a, b := LibInstall(Standalone(1), LIB_STANDALONE.w), LibInstall(Service("addr"), LIB_SERVICE.w);
    LibPending(map[], Standalone(1), Some("addr"));
    InstallStep(map[], a.chain, a.batch, LIB_STANDALONE.w, LIB_STANDALONE.st, map[]);
    LibPending(LIB_SERVICE.w, Service("addr"), None);
    InstallStep(LIB_SERVICE.w, b.chain, b.batch, LIB_SERVICE.w, LIB_SERVICE.st, map[]);
  }

  lemma LibRegistered(s: Sys, reference: ModuleReference)
    requires (s == LIB_STANDALONE && reference == Standalone(1)) || (s == LIB_SERVICE && reference == Service("addr"))
    ensures RegisterFrom(s.st.modules, map[], s.w, s.st.installContext) == Ok(map[])
    ensures RecordKinds(map[], s.st.installContext) == s.kinds
  {
    assert s.st.installContext[1..] == [];
    assert RegisterEntry(s.st.modules, map[], s.w, s.st.installContext[0]) == Ok(map[]);
    assert RegisterFrom(s.st.modules, map[], s.w, s.st.installContext[1..]) == Ok(map[]);
  }

  /** Both have nothing in the index and nothing on the whitelist, as they should. */
  lemma LibIsValid()
    ensures Valid(LIB_STANDALONE) && WhitelistMatches(LIB_STANDALONE)
    ensures Valid(LIB_SERVICE) && WhitelistMatches(LIB_SERVICE)
  {
    forall m
      ensures ListsExactly(map[], m, Declared(LIB_STANDALONE, m)) && Declared(LIB_STANDALONE, m) == []
      ensures ListsExactly(map[], m, Declared(LIB_SERVICE, m)) && Declared(LIB_SERVICE, m) == []
    {}
  }

  function LibChain(reference: ModuleReference): Chain {
    Registered(map[(LIB, V2) := reference])
  }

  const LIB_REQUEST := [UpgradeRequest(Exactly(LIB, V2), true)]

  /** Upgrading LIB alone to an app or a standalone, with nobody depending on it. */
  lemma LibUpgradePending(s: Sys, reference: ModuleReference, deps: seq<Dependency>)
    requires reference == App(2) || reference == Standalone(2)
    requires s.st.modules == map[LIB := "addr"] && s.st.dependents == map[] && s.st.migrateContext == []
    requires s.w == LibWorld(V1, deps)
    ensures UpgradeModules(s.st, LibChain(reference), s.w, LIB_REQUEST)
            == Some(s.st.(callingToAsAdmin := Some(CALLING_TO_AS_ADMIN_WILD_CARD),
                          migrateContext := if reference.App? then [MigrateEntry(LIB, deps)] else []))
  {
    var chain, req := LibChain(reference), LIB_REQUEST[0];
    var start := s.st.(callingToAsAdmin := Some(CALLING_TO_AS_ADMIN_WILD_CARD));
    assert StoredVersion(chain, s.w, "addr") == Some(V1) && !VersionLess(V2, V1);
    assert LIB != ACCOUNT by {
      assert LIB[0] != ACCOUNT[0];
    }
    assert RequestedModule(chain, V1, req.info) == Some(Module(LIB, V2, reference));
    assert DataAt(s.w, "addr") == Some(ModuleData(LIB, V1, deps)) && DependentsOf(start.dependents, LIB) == {};
    var m := Module(LIB, V2, reference);
    if reference.App? {
      assert MigrateAllowed(start, s.w, LIB, V2) && start.migrateContext + [MigrateEntry(LIB, deps)] == [MigrateEntry(LIB, deps)];
      assert MigrateApp(start, s.w, m) == Some(start.(migrateContext := [MigrateEntry(LIB, deps)]));
    } else {
      assert start.(migrateContext := []) == start;
    }
    var next := SetMigrateContext(start, chain, s.w, req);
    assert next == Some(start.(migrateContext := if reference.App? then [MigrateEntry(LIB, deps)] else []));
    UpgradeOne(s.st, chain, s.w, req, next.value);
  }

  /**
   A standalone whose new code declares a dependency that is not installed: the upgrade goes through, the dependency is
   not met and the index does not know of it.
   */
  lemma StandaloneUpgradeBreaksBoth()
    ensures var after := LibWorld(V2, [Dependency(OTHER, [])]);
            var t := Step(LIB_STANDALONE, Upgrade(LibChain(Standalone(2)), LIB_REQUEST, after));
            && Valid(LIB_STANDALONE) && Untouched(LIB_STANDALONE, after, Targets(LIB_REQUEST))
            && t.w == after
            && !Closed(t) && !IndexExact(t)
  {
    var s, chain, after := LIB_STANDALONE, LibChain(Standalone(2)), LibWorld(V2, [Dependency(OTHER, [])]);
    LibIsValid();
    LibUpgradePending(s, Standalone(2), []);
    assert LIB_REQUEST[0].info.id in Targets(LIB_REQUEST);
    var t := Step(s, Upgrade(chain, LIB_REQUEST, after));
    assert LIB_REQUEST[1..] == [] && RecordUpgrades(s.kinds, chain, LIB_REQUEST) == map[LIB := Standalone(2)];
    UnlistedDependency(t);
  }

  /** An installed tracked module declares a dependency that is neither installed nor in the index. */
  lemma UnlistedDependency(t: Sys)
    requires t.st.modules == map[LIB := "addr"] && t.st.dependents == map[] && t.kinds == map[LIB := Standalone(2)]
    requires t.w == LibWorld(V2, [Dependency(OTHER, [])])
    ensures !Closed(t) && !IndexExact(t)
  {
    var deps := [Dependency(OTHER, [])];
    assert Declared(t, LIB) == deps;
    assert LIB != OTHER by {
      assert LIB[4] != OTHER[4];
    }
    assert !DependencyMet(t.st.modules, t.w, deps[0]);
    assert !AllMet(t.st.modules, t.w, Declared(t, LIB));
    assert deps[0].id in DepIds(deps) && LIB !in DependentsOf(t.st.dependents, OTHER);
    assert !ListsExactly(t.st.dependents, LIB, Declared(t, LIB));
  }

  /**
   The registry does not compare the kinds of a module's versions. A standalone upgraded to a version registered as an app
   acts without being on the whitelist, and can then not be uninstalled.
   */
  lemma StandaloneBecomesApp()
    ensures var chain, after := LibChain(App(2)), LibWorld(V2, []);
            var t := Step(LIB_STANDALONE, Upgrade(chain, LIB_REQUEST, after));
            && Valid(LIB_STANDALONE) && WhitelistMatches(LIB_STANDALONE)
            && t.kinds == map[LIB := App(2)] && t.w == after
            && !WhitelistMatches(t)
            && UninstallModule(t.st, chain, after, LIB) == Err(NotWhitelisted)
  {
    var s, chain, after := LIB_STANDALONE, LibChain(App(2)), LibWorld(V2, []);
    LibIsValid();
    LibUpgradePending(s, App(2), []);
    var e := MigrateEntry(LIB, []);
    assert Without([], []) == [] && Retarget(map[], LIB, [], []) == Some(map[]);
    assert FinishEntry(s.st.modules, map[], after, e) == Some(map[]);
    assert [e][1..] == [] && FinishFrom(s.st.modules, map[], after, [e]) == Some(map[]);
    assert LIB_REQUEST[1..] == [] && RecordUpgrades(s.kinds, chain, LIB_REQUEST) == map[LIB := App(2)];
    var t := Step(s, Upgrade(chain, LIB_REQUEST, after));
    assert Acts(t.st.modules, t.kinds, LIB) && t.st.whitelist == [];
    assert UpdateWhitelist([], [], ["addr"]) == Err(NotWhitelisted);
  }

  /**
   A service that declares a dependency is installed without an entry in the index. Upgraded to a version registered as an
   app that declares none, it passes every check and the reply then aborts on the missing set.
   */
  lemma ServiceBecomesAppPanics()
    ensures var chain, after := LibChain(App(2)), LibWorld(V2, []);
            && Valid(LIB_SERVICE)
            && UpgradeModules(LIB_SERVICE.st, chain, LIB_SERVICE.w, LIB_REQUEST).Some?
            && var pending := UpgradeModules(LIB_SERVICE.st, chain, LIB_SERVICE.w, LIB_REQUEST).value;
               && (forall e :: e in pending.migrateContext ==> EntryPasses(pending.modules, after, e))
               && FinishUpgrade(pending, after).None?
  {
    var s, chain, after := LIB_SERVICE, LibChain(App(2)), LibWorld(V2, []);
    LibIsValid();
    LibUpgradePending(s, App(2), [Dependency(OTHER, [])]);
    var pending := UpgradeModules(s.st, chain, s.w, LIB_REQUEST).value;
    var e := pending.migrateContext[0];
    assert NewDeps(pending.modules, after, e) == [];
    assert Without(e.oldDeps, []) == e.oldDeps by {
      FilterAll(e.oldDeps, d => d !in []);
    }
    assert e.oldDeps[0].id in DepIds(e.oldDeps);
    assert OTHER in Gone(pending.modules, after, e) && AllAdded(pending.modules, after, pending.migrateContext[..0]) == {};
    FinishFromIff(pending.modules, pending.dependents, after, pending.migrateContext);
  }

  // ------------------------------------------------------------------ two modules, installed together

  function ModuleContract(id: ModuleId, v: Version, deps: seq<Dependency>): Contract {
    Contract(Some(ContractVersion(id, v)), Some(ModuleData(id, v, deps)))
  }

  /** A batch of two modules that are new to the account, and where they will live. */
  ghost predicate TwoEntries(chain: Chain, w: World, batch: seq<InstallConfig>, first: Module, p: Placement,
                             second: Module, q: Placement)
  {
    && |batch| == 2
    && Lookup(chain, batch[0].info) == Some(first) && Lookup(chain, batch[1].info) == Some(second)
    && first.id != "" && second.id != ""
    && Place(map[], chain, w, first, batch[0].hasInitMsg) == Ok(p)
    && Place(map[], chain, w, second, batch[1].hasInitMsg) == Ok(q)
    && p.addr != q.addr
  }

  function ListedAt(m: Module, p: Placement): seq<Addr> {
    if ShouldBeWhitelisted(m.id, m.reference) then [p.addr] else []
  }

  /** The account while such an install is open. */
  function TwoPending(first: Module, p: Placement, second: Module, q: Placement): Storage {
    FRESH_STORAGE.(modules := map[][first.id := p.addr][second.id := q.addr],
                   whitelist := ListedAt(first, p) + ListedAt(second, q),
                   installContext := [InstallEntry(first, p.context), InstallEntry(second, q.context)])
  }

  lemma TwoResolved(chain: Chain, w: World, batch: seq<InstallConfig>, first: Module, p: Placement, second: Module, q: Placement)
    requires TwoEntries(chain, w, batch, first, p, second, q)
    ensures ResolveAll(chain, batch) == Some([first, second])
  {
    assert batch[1..] == [batch[1]] && batch[1..][1..] == [];
    assert ResolveAll(chain, batch[1..][1..]) == Some([]);
    assert ResolveAll(chain, batch[1..]) == Some([second] + []);
    assert [first] + ([second] + []) == [first, second];
  }

  lemma TwoPlanned(chain: Chain, w: World, batch: seq<InstallConfig>, first: Module, p: Placement, second: Module, q: Placement)
    requires TwoEntries(chain, w, batch, first, p, second, q)
    ensures PlanFrom(map[], chain, w, [first, second], batch, EMPTY_PLAN)
            == Ok(Plan(ListedAt(first, p) + ListedAt(second, q), [(first.id, p.addr), (second.id, q.addr)],
                       TwoPending(first, p, second, q).installContext))
  {
    var ms := [first, second];
    assert ms[1..] == [second] && ms[1..][1..] == [];
    var one := Extend(EMPTY_PLAN, first, p);
    var two := Extend(one, second, q);
    assert two == Plan(ListedAt(first, p) + ListedAt(second, q), [(first.id, p.addr), (second.id, q.addr)],
                       TwoPending(first, p, second, q).installContext);
    assert PlanFrom(map[], chain, w, ms[1..], batch[1..], one) == Ok(two);
  }

  lemma WhitelistFromEmpty(add: seq<Addr>)
    requires NoDup(add) && |add| <= WHITELIST_SIZE_LIMIT
    ensures UpdateWhitelist([], add, []) == Ok(add)
  {
    UpdateWhitelistIff([], add, []);
    assert [] + add == add;
    FilterAll(add, a => a !in []);
  }

  /** The first phase of such an install goes through, whether or not the two ids differ. */
  lemma TwoInstalls(chain: Chain, w: World, batch: seq<InstallConfig>, first: Module, p: Placement, second: Module, q: Placement)
    requires TwoEntries(chain, w, batch, first, p, second, q)
    ensures InstallModules(FRESH_STORAGE, chain, w, batch) == Ok(TwoPending(first, p, second, q))
  {
    TwoResolved(chain, w, batch, first, p, second, q);
    TwoPlanned(chain, w, batch, first, p, second, q);
    WhitelistFromEmpty(ListedAt(first, p) + ListedAt(second, q));
    var add := [(first.id, p.addr), (second.id, q.addr)];
    assert add[1..] == [add[1]] && add[1..][1..] == [];
    var saved := TwoPending(first, p, second, q).modules;
    assert SaveAddresses(saved, add[1..][1..]) == Ok(saved);
    assert SaveAddresses(map[][first.id := p.addr], add[1..]) == Ok(saved);
    assert SaveAddresses(map[], add) == Ok(saved);
  }

  // ------------------------------------------------------------------ one id twice in a batch

  const SWAP: ModuleId := "dex:swap"

  const ONE := Placement("one", None)
  const TWO := Placement("two", None)

  const FIRST := Module(SWAP, V1, Adapter("one"))
  const SECOND := Module(SWAP, V2, Adapter("two"))

  const TWO_ADAPTERS: World := map["one" := ModuleContract(SWAP, V1, []), "two" := ModuleContract(SWAP, V2, [])]

  const TWICE := [InstallConfig(Exactly(SWAP, V1), false), InstallConfig(Exactly(SWAP, V2), false)]

  function TwiceChain(second: ModuleReference): Chain {
    Registered(map[(SWAP, V1) := Adapter("one"), (SWAP, V2) := second])
  }

  /**
   Two versions of one adapter in a single batch: both pass the already-installed check, which looks at the
   storage from before the batch, and the first version's address stays whitelisted without being installed.
   */
  lemma BatchOverwritesItself()
    ensures var t := Step(Fresh(TWO_ADAPTERS), Install(TwiceChain(Adapter("two")), TWICE, TWO_ADAPTERS));
            && t.st.modules == map[SWAP := "two"]
            && t.st.whitelist == ["one", "two"]
            && !WhitelistMatches(t)
  {
    var chain, pending := TwiceChain(Adapter("two")), TwoPending(FIRST, ONE, SECOND, TWO);
    assert "one"[0] != "two"[0] && |SWAP| > 0 && V1 != V2;
    TwoInstalls(chain, TWO_ADAPTERS, TWICE, FIRST, ONE, SECOND, TWO);
    forall e | e in pending.installContext
      ensures EntryAccepted(pending.modules, TWO_ADAPTERS, e)
    {
      assert e == pending.installContext[0] || e == pending.installContext[1];
    }
    RegisterFromExact(pending.modules, pending.dependents, TWO_ADAPTERS, pending.installContext);
    var t := Step(Fresh(TWO_ADAPTERS), Install(chain, TWICE, TWO_ADAPTERS));
    assert t.st.whitelist[0] == "one";
  }

  const SELF := Dependency(SWAP, [])

  const ADAPTER_AND_SERVICE: World := map["one" := ModuleContract(SWAP, V1, []), "two" := ModuleContract(SWAP, V2, [SELF])]

  const SERVICE := Module(SWAP, V2, Service("two"))

  const SELF_LISTED: Index := map[SWAP := {SWAP}]

  /** The reply reads the dependencies of the adapter at the address of the service. */
  lemma MixedRegistered()
    ensures var pending := TwoPending(FIRST, ONE, SERVICE, TWO);
            RegisterFrom(pending.modules, map[], ADAPTER_AND_SERVICE, pending.installContext) == Ok(SELF_LISTED)
  {
    var w, pending := ADAPTER_AND_SERVICE, TwoPending(FIRST, ONE, SERVICE, TWO);
    var context := pending.installContext;
    assert "one"[0] != "two"[0];
    assert pending.modules == map[SWAP := "two"];
    assert DependencyMet(pending.modules, w, SELF) && FirstUnmet(pending.modules, w, [SELF], SWAP) == None;
    var next: Index := map[][SWAP := {} + {SWAP}];
    assert {} + {SWAP} == {SWAP} && next == SELF_LISTED && [SELF][1..] == [];
    assert SetAsDependent(SELF_LISTED, SWAP, []) == SELF_LISTED && SetAsDependent(map[], SWAP, [SELF]) == SELF_LISTED;
    assert RegisterEntry(pending.modules, map[], w, context[0]) == Ok(SELF_LISTED);
    assert RegisterEntry(pending.modules, SELF_LISTED, w, context[1]) == Ok(SELF_LISTED);
    assert context[1..] == [context[1]] && context[1..][1..] == [];
    assert RegisterFrom(pending.modules, SELF_LISTED, w, context[1..][1..]) == Ok(SELF_LISTED);
    assert RegisterFrom(pending.modules, SELF_LISTED, w, context[1..]) == Ok(SELF_LISTED);
  }

  /**
   An adapter and a service under one id: the reply records dependencies for the adapter, and what is installed is the
   service, whose dependencies nobody tracks.
   */
  lemma ServiceOverwritesAdapter()
    ensures var t := Step(Fresh(ADAPTER_AND_SERVICE), Install(TwiceChain(Service("two")), TWICE, ADAPTER_AND_SERVICE));
            && t.kinds == map[SWAP := Service("two")]
            && t.st.dependents == SELF_LISTED
            && !IndexExact(t)
  {
    var w, chain := ADAPTER_AND_SERVICE, TwiceChain(Service("two"));
    var pending := TwoPending(FIRST, ONE, SERVICE, TWO);
    assert "one"[0] != "two"[0] && |SWAP| > 0 && V1 != V2;
    TwoInstalls(chain, w, TWICE, FIRST, ONE, SERVICE, TWO);
    MixedRegistered();
    assert pending.installContext[1..] == [pending.installContext[1]] && pending.installContext[1..][1..] == [];
    assert RecordKinds(map[], pending.installContext) == map[SWAP := Service("two")];
    InstallStep(w, chain, TWICE, w, pending, SELF_LISTED);
    var t := Step(Fresh(w), Install(chain, TWICE, w));
    assert SWAP in DependentsOf(t.st.dependents, SWAP) && Declared(t, SWAP) == [];
    assert !ListsExactly(t.st.dependents, SWAP, []);
  }

  // ------------------------------------------------------------------ a pair that needs each other

  const LEFT: ModuleId := "pair:left"
  const RIGHT: ModuleId := "pair:right"

  const PAIR_WORLD: World :=
    map["l" := ModuleContract(LEFT, V1, [Dependency(RIGHT, [])]), "r" := ModuleContract(RIGHT, V1, [Dependency(LEFT, [])])]

  const PAIR_CHAIN := Registered(map[(LEFT, V1) := Adapter("l"), (RIGHT, V1) := Adapter("r")])

  const PAIR_BATCH := [InstallConfig(Exactly(LEFT, V1), false), InstallConfig(Exactly(RIGHT, V1), false)]

  const PAIR :=
    Sys(FRESH_STORAGE.(modules := map[LEFT := "l", RIGHT := "r"],
                       dependents := map[LEFT := {RIGHT}, RIGHT := {LEFT}],
                       whitelist := ["l", "r"],
                       installContext := [InstallEntry(Module(LEFT, V1, Adapter("l")), None),
                                          InstallEntry(Module(RIGHT, V1, Adapter("r")), None)]),
        PAIR_WORLD, map[LEFT := Adapter("l"), RIGHT := Adapter("r")])

  /** The pair can be installed in one batch: the reply finds both already stored. */
  lemma PairIsInstalled()
    ensures Step(Fresh(PAIR_WORLD), Install(PAIR_CHAIN, PAIR_BATCH, PAIR_WORLD)) == PAIR
  {
    PairPending();
    PairRegistered();
    InstallStep(PAIR_WORLD, PAIR_CHAIN, PAIR_BATCH, PAIR_WORLD, PAIR.st.(dependents := map[]), PAIR.st.dependents);
  }

  lemma PairPending()
    ensures InstallModules(FRESH_STORAGE, PAIR_CHAIN, PAIR_WORLD, PAIR_BATCH) == Ok(PAIR.st.(dependents := map[]))
    ensures RecordKinds(map[], PAIR.st.installContext) == PAIR.kinds
  {
    var left, right := Module(LEFT, V1, Adapter("l")), Module(RIGHT, V1, Adapter("r"));
    assert LEFT[5] != RIGHT[5] && LEFT != RIGHT && "l"[0] != "r"[0];
    TwoInstalls(PAIR_CHAIN, PAIR_WORLD, PAIR_BATCH, left, Placement("l", None), right, Placement("r", None));
    var context := PAIR.st.installContext;
    assert context[1..] == [context[1]] && context[1..][1..] == [];
    assert TwoPending(left, Placement("l", None), right, Placement("r", None)) == PAIR.st.(dependents := map[]);
  }

  lemma PairRegistered()
    ensures RegisterFrom(PAIR.st.modules, map[], PAIR_WORLD, PAIR.st.installContext) == Ok(PAIR.st.dependents)
  {
    var w, modules, context := PAIR_WORLD, PAIR.st.modules, PAIR.st.installContext;
    assert LEFT[5] != RIGHT[5] && LEFT != RIGHT;
    PairEntry(map[], LEFT, "l", RIGHT, context[0]);
    var ix: Index := map[RIGHT := {LEFT}];
    PairEntry(ix, RIGHT, "r", LEFT, context[1]);
    assert context[1..] == [context[1]] && context[1..][1..] == [];
    assert ix[LEFT := {RIGHT}] == PAIR.st.dependents;
    assert RegisterFrom(modules, PAIR.st.dependents, w, context[1..][1..]) == Ok(PAIR.st.dependents);
    assert RegisterFrom(modules, ix, w, context[1..]) == Ok(PAIR.st.dependents);
  }

  /** The reply for one half of the pair. */
  lemma PairEntry(ix: Index, id: ModuleId, a: Addr, other: ModuleId, e: InstallEntry)
    requires (id == LEFT && a == "l" && other == RIGHT) || (id == RIGHT && a == "r" && other == LEFT)
    requires e == InstallEntry(Module(id, V1, Adapter(a)), None) && other !in ix
    ensures RegisterEntry(PAIR.st.modules, ix, PAIR_WORLD, e) == Ok(ix[other := {id}])
  {
    var deps := [Dependency(other, [])];
    assert LEFT[5] != RIGHT[5] && "l"[0] != "r"[0];
    assert DataAt(PAIR_WORLD, a) == Some(ModuleData(id, V1, deps)) && PAIR.st.modules[id] == a;
    assert DependencyMet(PAIR.st.modules, PAIR_WORLD, deps[0]);
    assert FirstUnmet(PAIR.st.modules, PAIR_WORLD, deps, id) == None;
    assert deps[1..] == [] && {} + {id} == {id};
    assert SetAsDependent(ix[other := {id}], id, deps[1..]) == ix[other := {id}];
  }

  lemma PairIsValid()
    ensures Valid(PAIR) && WhitelistMatches(PAIR)
  {
    var s := PAIR;
    assert LEFT[5] != RIGHT[5] && LEFT != RIGHT;
    assert Declared(s, LEFT) == [Dependency(RIGHT, [])] && Declared(s, RIGHT) == [Dependency(LEFT, [])];
    forall d
      ensures d in DepIds(Declared(s, LEFT)) <==> d == RIGHT
      ensures d in DepIds(Declared(s, RIGHT)) <==> d == LEFT
    {
      DepIdsMember(Declared(s, LEFT), d);
      DepIdsMember(Declared(s, RIGHT), d);
    }
    forall m
      ensures ListsExactly(s.st.dependents, m, Declared(s, m)) && AllMet(s.st.modules, s.w, Declared(s, m))
    {
      if m != LEFT && m != RIGHT {
        assert Declared(s, m) == [];
      }
    }
    PairWhitelist();
  }

  lemma PairWhitelist()
    ensures WhitelistMatches(PAIR)
  {
    var s := PAIR;
    assert LEFT[5] != RIGHT[5] && LEFT != RIGHT && "l"[0] != "r"[0];
    forall a | a in s.st.whitelist
      ensures exists m :: Acts(s.st.modules, s.kinds, m) && s.st.modules[m] == a
    {
      var m := if a == "l" then LEFT else RIGHT;
      assert Acts(s.st.modules, s.kinds, m);
    }
  }

  /** No sequence of uninstalls ever removes either of the two. */
  lemma MutualPairIsStuck(requests: seq<(Chain, ModuleId)>)
    ensures Valid(PAIR) && WhitelistMatches(PAIR)
    ensures var s := UninstallAll(PAIR, requests);
            LEFT in TrackedModules(s) && RIGHT in TrackedModules(s)
  {
    PairIsValid();
    var p := [LEFT, RIGHT, LEFT];
    PairCycle();
    CycleStays(PAIR, p, requests);
    PathTracked(UninstallAll(PAIR, requests), p, 0);
    PathTracked(UninstallAll(PAIR, requests), p, 1);
  }

  lemma PairCycle()
    ensures Cycle(PAIR, [LEFT, RIGHT, LEFT])
  {
    var s, p := PAIR, [LEFT, RIGHT, LEFT];
    assert LEFT[5] != RIGHT[5] && LEFT != RIGHT;
    DepIdsMember(Declared(s, LEFT), RIGHT);
    DepIdsMember(Declared(s, RIGHT), LEFT);
    assert Declared(s, LEFT)[0] in Declared(s, LEFT) && Declared(s, RIGHT)[0] in Declared(s, RIGHT);
    assert DependsOn(s, p[1], p[0]) && DependsOn(s, p[2], p[1]);
  }

  // ------------------------------------------------------------------ a version that is not the registered one

  const V11 := Version(1, 1, 0, [])
  const BASE: ModuleId := "app:base"
  const USER: ModuleId := "app:user"

  const APP_BASE := Module(BASE, V1, App(1))
  const APP_USER := Module(USER, V1, App(2))

  const NEEDS := Dependency(BASE, [CaretOf(V1)])

  const APP_CHAIN := Registered(map[(BASE, V1) := App(1), (USER, V1) := App(2)])

  const APP_BATCH := [InstallConfig(Exactly(BASE, V1), true), InstallConfig(Exactly(USER, V1), true)]

  /** The base at some version, and its user that needs ^1.0.0 of it. */
  function AppWorld(v: Version): World {
    map["addr" := ModuleContract(BASE, v, []), "user" := ModuleContract(USER, V1, [NEEDS])]
  }

  const APPS_PENDING := TwoPending(APP_BASE, Placement("addr", Some("addr")), APP_USER, Placement("user", Some("user")))

  const APPS := Sys(APPS_PENDING.(dependents := map[BASE := {USER}]), AppWorld(V1), map[BASE := App(1), USER := App(2)])

  lemma AppNames()
    ensures BASE != USER && "addr" != "user" && BASE != ACCOUNT && USER != ACCOUNT && |BASE| > 0 && |USER| > 0
  {
    assert BASE[4] != USER[4] && "addr"[0] != "user"[0] && BASE[1] != ACCOUNT[1];
    assert USER[1] != ACCOUNT[1];
  }

  lemma AppsAreInstalled()
    ensures Step(Fresh(map[]), Install(APP_CHAIN, APP_BATCH, AppWorld(V1))) == APPS
  {
    var w, modules, context := AppWorld(V1), APPS.st.modules, APPS.st.installContext;
    AppNames();
    TwoInstalls(APP_CHAIN, map[], APP_BATCH, APP_BASE, Placement("addr", Some("addr")), APP_USER,
                Placement("user", Some("user")));
    assert RegisterEntry(modules, map[], w, context[0]) == Ok(map[]);
    assert DependencyMet(modules, w, NEEDS) && FirstUnmet(modules, w, [NEEDS], USER) == None;
    assert [NEEDS][1..] == [] && {} + {USER} == {USER};
    var ix: Index := map[BASE := {USER}];
    assert SetAsDependent(ix, USER, []) == ix && SetAsDependent(map[], USER, [NEEDS]) == ix;
    assert RegisterEntry(modules, map[], w, context[1]) == Ok(ix);
    assert context[1..] == [context[1]] && context[1..][1..] == [];
    assert RegisterFrom(modules, ix, w, context[1..][1..]) == Ok(ix);
    assert RegisterFrom(modules, map[], w, context[1..]) == Ok(ix);
    assert RegisterFrom(modules, map[], w, context) == Ok(ix);
    assert RecordKinds(map[], context) == APPS.kinds;
    InstallStep(map[], APP_CHAIN, APP_BATCH, w, APPS_PENDING, ix);
  }

  lemma AppsAreValid()
    ensures Valid(APPS)
  {
    var s := APPS;
    AppNames();
    assert Declared(s, BASE) == [] && Declared(s, USER) == [NEEDS];
    forall d
      ensures d in DepIds([NEEDS]) <==> d == BASE
    {
      DepIdsMember([NEEDS], d);
    }
    forall m
      ensures ListsExactly(s.st.dependents, m, Declared(s, m)) && AllMet(s.st.modules, s.w, Declared(s, m))
    {
      if m != BASE && m != USER {
        assert Declared(s, m) == [];
      }
    }
  }

  const APP_REQUEST := [UpgradeRequest(Exactly(BASE, V11), true)]

  const APP_UPGRADE_CHAIN := Registered(map[(BASE, V11) := App(3)])

  /** The check before the migration passes: the user supports 1.1.0. */
  lemma AppUpgradePending()
    ensures UpgradeModules(APPS.st, APP_UPGRADE_CHAIN, APPS.w, APP_REQUEST)
            == Some(APPS.st.(callingToAsAdmin := Some(CALLING_TO_AS_ADMIN_WILD_CARD), migrateContext := [MigrateEntry(BASE, [])]))
  {
    var s, chain, req := APPS, APP_UPGRADE_CHAIN, APP_REQUEST[0];
    var start := s.st.(callingToAsAdmin := Some(CALLING_TO_AS_ADMIN_WILD_CARD));
    AppNames();
    AppRequested();
    AppMigrates(start);
    UpgradeOne(s.st, chain, s.w, req, start.(migrateContext := [MigrateEntry(BASE, [])]));
  }

  lemma AppRequested()
    ensures StoredVersion(APP_UPGRADE_CHAIN, APPS.w, "addr") == Some(V1)
    ensures RequestedModule(APP_UPGRADE_CHAIN, V1, APP_REQUEST[0].info) == Some(Module(BASE, V11, App(3)))
  {
    AppNames();
    assert !VersionLess(V11, V1);
  }

  lemma AppMigrates(st: Storage)
    requires st.modules == APPS.st.modules && st.dependents == APPS.st.dependents && st.migrateContext == []
    ensures BASE in st.modules && st.modules[BASE] == "addr"
    ensures MigrateApp(st, APPS.w, Module(BASE, V11, App(3))) == Some(st.(migrateContext := [MigrateEntry(BASE, [])]))
  {
    AppNames();
    AppSupported(st);
    assert st.migrateContext + [MigrateEntry(BASE, [])] == [MigrateEntry(BASE, [])];
  }

  lemma AppSupported(st: Storage)
    requires st.modules == APPS.st.modules && st.dependents == APPS.st.dependents
    ensures MigrateAllowed(st, APPS.w, BASE, V11)
  {
    AppNames();
    assert Matches(CaretOf(V1), V11) && AllMatch([CaretOf(V1)], V11);
    assert Supports(st.modules, APPS.w, USER, BASE, V11);
  }

  /** The reply passes and leaves the index as it was: the base declares nothing, before and after. */
  lemma AppUpgradeFinished()
    ensures Step(APPS, Upgrade(APP_UPGRADE_CHAIN, APP_REQUEST, AppWorld(V2)))
            == Sys(APPS.st, AppWorld(V2), map[BASE := App(3), USER := App(2)])
  {
    var st, after, e := APPS.st, AppWorld(V2), MigrateEntry(BASE, []);
    AppNames();
    AppUpgradePending();
    assert Without([], []) == [] && Retarget(st.dependents, BASE, [], []) == Some(st.dependents);
    assert FinishEntry(st.modules, st.dependents, after, e) == Some(st.dependents);
    assert [e][1..] == [] && FinishFrom(st.modules, st.dependents, after, [e]) == Some(st.dependents);
    var pending := UpgradeModules(st, APP_UPGRADE_CHAIN, APPS.w, APP_REQUEST).value;
    assert FinishUpgrade(pending, after) == Some(st);
    UpgradeStep(APPS, APP_UPGRADE_CHAIN, APP_REQUEST, after, pending, st);
    assert APP_REQUEST[1..] == [];
    assert RecordUpgrades(APPS.kinds, APP_UPGRADE_CHAIN, APP_REQUEST) == map[BASE := App(3), USER := App(2)];
  }

  lemma AppUpgradeOrdinary()
    ensures Untouched(APPS, AppWorld(V2), Targets(APP_REQUEST))
    ensures forall q :: q in APP_REQUEST ==> Ordinary(APPS, APP_UPGRADE_CHAIN, q)
  {
    AppNames();
    assert APP_REQUEST[0].info.id in Targets(APP_REQUEST);
    assert Declared(APPS, BASE) == [];
  }

  /**
   The reply does not look at the version an app has after its migration. An app upgraded to 1.1.0, which its dependent
   supports, may report 2.0.0: the upgrade is ordinary and every check passes, and the dependent's requirement is not met.
   */
  lemma UnlandedUpgradeBreaksClosure()
    ensures var after := AppWorld(V2);
            var t := Step(APPS, Upgrade(APP_UPGRADE_CHAIN, APP_REQUEST, after));
            && Valid(APPS) && Untouched(APPS, after, Targets(APP_REQUEST))
            && (forall q :: q in APP_REQUEST ==> Ordinary(APPS, APP_UPGRADE_CHAIN, q))
            && t.w == after && t.kinds == map[BASE := App(3), USER := App(2)]
            && !Closed(t)
  {
    AppNames();
    AppsAreValid();
    AppUpgradeFinished();
    AppUpgradeOrdinary();
    RefusedVersion(Step(APPS, Upgrade(APP_UPGRADE_CHAIN, APP_REQUEST, AppWorld(V2))));
  }

  lemma RefusedVersion(t: Sys)
    requires t.st.modules == APPS.st.modules && t.w == AppWorld(V2) && t.kinds == map[BASE := App(3), USER := App(2)]
    ensures !Closed(t)
  {
    AppNames();
    assert Declared(t, USER) == [NEEDS];
    assert !Matches(CaretOf(V1), V2) && NEEDS.versionReq[0] == CaretOf(V1);
    assert !DependencyMet(t.st.modules, t.w, [NEEDS][0]);
    assert !AllMet(t.st.modules, t.w, Declared(t, USER));
  }
}
