/**
 Whole runs. When an upgrade leaves every dependency met, and why the index stays exact and the dependencies met over every
 run of installs, uninstalls and checked upgrades.
 */
module ModuleHistory {
  import opened Basics
  import opened Semver
  import opened ModuleTypes
  import opened Dependents
  import opened ModuleManager
  import opened ModuleRuns
  import opened ModuleUpgrades

  // ------------------------------------------------------------------ closure after an upgrade

  /** A dependency of an unasked module on another unasked module stays met. */
  lemma UnaskedDependencyMet(s: Sys, chain: Chain, reqs: seq<UpgradeRequest>, after: World, pending: Storage, t: Sys,
                             m: ModuleId, dep: Dependency)
    requires Upgraded(s, chain, reqs, after, pending, t) && dep in Declared(s, m) && dep.id !in Targets(reqs)
    ensures DependencyMet(pending.modules, after, dep)
  {
    UpgradeModulesEffect(s, chain, reqs);
    var i :| 0 <= i < |Declared(s, m)| && Declared(s, m)[i] == dep;
    assert AllMet(s.st.modules, s.w, Declared(s, m));
    assert DependencyMet(s.st.modules, s.w, Declared(s, m)[i]);
  }

  /** When the dependencies of one module are met after an upgrade. */
  lemma UpgradedMetIff(s: Sys, chain: Chain, reqs: seq<UpgradeRequest>, after: World, pending: Storage, t: Sys, m: ModuleId)
    requires Upgraded(s, chain, reqs, after, pending, t)
    ensures m in Targets(reqs) && !StandaloneRequest(chain, reqs, m) ==> AllMet(t.st.modules, t.w, Declared(t, m))
    ensures m in Targets(reqs) && StandaloneRequest(chain, reqs, m) ==>
              && m in s.st.modules
              && (AllMet(t.st.modules, t.w, Declared(t, m)) <==>
                    AllMet(pending.modules, after, DepsAt(after, s.st.modules[m])))
    ensures m !in Targets(reqs) ==>
              (AllMet(t.st.modules, t.w, Declared(t, m)) <==>
                 forall dep :: dep in Declared(s, m) && dep.id in Targets(reqs) ==> DependencyMet(pending.modules, after, dep))
  {
    KindsAfter(s, chain, reqs, after, pending, t);
    if m in Targets(reqs) {
      AskedModule(s, chain, reqs, after, pending, t, m);
      if Migrating(pending.migrateContext, m) {
        FinishEffect(s, chain, reqs, after, pending, t);
        var i :| 0 <= i < |pending.migrateContext| && pending.migrateContext[i].id == m;
        assert EntryPasses(pending.modules, after, pending.migrateContext[i]);
      }
    } else {
      UnaskedModule(s, chain, reqs, after, pending, t, m);
      UnaskedMetIff(s, chain, reqs, after, pending, t, m);
    }
  }

  lemma UnaskedMetIff(s: Sys, chain: Chain, reqs: seq<UpgradeRequest>, after: World, pending: Storage, t: Sys, m: ModuleId)
    requires Upgraded(s, chain, reqs, after, pending, t)
    ensures AllMet(pending.modules, after, Declared(s, m)) <==>
            forall dep :: dep in Declared(s, m) && dep.id in Targets(reqs) ==> DependencyMet(pending.modules, after, dep)
  {
    var deps := Declared(s, m);
    forall i | 0 <= i < |deps| && deps[i].id !in Targets(reqs)
      ensures DependencyMet(pending.modules, after, deps[i])
    {
      UnaskedDependencyMet(s, chain, reqs, after, pending, t, m, deps[i]);
    }
    if AllMet(pending.modules, after, deps) {
      forall dep | dep in deps && dep.id in Targets(reqs)
        ensures DependencyMet(pending.modules, after, dep)
      {
        var i :| 0 <= i < |deps| && deps[i] == dep;
      }
    }
  }

  /** The requested module has the version that the registry lists for the request. */
  ghost predicate LandedAt(pending: Storage, chain: Chain, after: World, q: UpgradeRequest) {
    q.info.id in pending.modules && Lookup(chain, q.info).Some? ==>
      var cw2 := Cw2At(after, pending.modules[q.info.id]);
      cw2.Some? && cw2.value.version == Lookup(chain, q.info).value.version
  }

  ghost predicate Landed(pending: Storage, chain: Chain, reqs: seq<UpgradeRequest>, after: World) {
    forall q :: q in reqs && q.info.id != ACCOUNT ==> LandedAt(pending, chain, after, q)
  }

  /** The dependents outside the request accept the version that the requested module really has afterwards. */
  ghost predicate Accepted(s: Sys, pending: Storage, reqs: seq<UpgradeRequest>, after: World, q: UpgradeRequest) {
    forall m, dep :: m !in Targets(reqs) && dep in Declared(s, m) && dep.id == q.info.id ==>
      DependencyMet(pending.modules, after, dep)
  }

  /** The upgraded standalones, which nobody checks, have their own requirements met. */
  ghost predicate StandalonesMet(s: Sys, pending: Storage, chain: Chain, reqs: seq<UpgradeRequest>, after: World) {
    forall id :: id in s.st.modules && StandaloneRequest(chain, reqs, id) ==>
      AllMet(pending.modules, after, DepsAt(after, s.st.modules[id]))
  }

  /**
   After an upgrade every dependency is met if and only if it is for what the account does not check: the dependents
   outside the request accept the standalones, and those apps and adapters that did not land on the version they were
   checked at, and the standalones meet their own requirements.
   */
  lemma UpgradeClosedIff(s: Sys, chain: Chain, reqs: seq<UpgradeRequest>, after: World, pending: Storage, t: Sys)
    requires Upgraded(s, chain, reqs, after, pending, t)
    ensures Closed(t) <==>
            && (forall q :: q in reqs && q.info.id != ACCOUNT && !(Recorded(chain, q) && LandedAt(pending, chain, after, q)) ==>
                  Accepted(s, pending, reqs, after, q))
            && StandalonesMet(s, pending, chain, reqs, after)
  {
    forall q | q in reqs && Recorded(chain, q) && LandedAt(pending, chain, after, q)
      ensures Accepted(s, pending, reqs, after, q)
    {
      RecordedIsSupported(s, chain, reqs, q);
      AcceptedIffSupported(s, chain, reqs, after, pending, q);
    }
    ClosedByRequest(s, chain, reqs, after, pending, t);
  }

  /** Closure request by request: all of them are accepted, and the standalones' own requirements are met. */
  lemma ClosedByRequest(s: Sys, chain: Chain, reqs: seq<UpgradeRequest>, after: World, pending: Storage, t: Sys)
    requires Upgraded(s, chain, reqs, after, pending, t)
    ensures Closed(t) <==>
            && (forall q :: q in reqs && q.info.id != ACCOUNT ==> Accepted(s, pending, reqs, after, q))
            && StandalonesMet(s, pending, chain, reqs, after)
  {
    if Closed(t) {
      forall q | q in reqs && q.info.id != ACCOUNT
        ensures Accepted(s, pending, reqs, after, q)
      {
        ClosedAccepts(s, chain, reqs, after, pending, t, q);
      }
      forall id | id in s.st.modules && StandaloneRequest(chain, reqs, id)
        ensures AllMet(pending.modules, after, DepsAt(after, s.st.modules[id]))
      {
        StandaloneIsTarget(chain, reqs, id);
        UpgradedMetIff(s, chain, reqs, after, pending, t, id);
      }
    }
    if (forall q :: q in reqs && q.info.id != ACCOUNT ==> Accepted(s, pending, reqs, after, q))
       && StandalonesMet(s, pending, chain, reqs, after) {
      forall m
        ensures AllMet(t.st.modules, t.w, Declared(t, m))
      {
        UpgradedMetIff(s, chain, reqs, after, pending, t, m);
        if m !in Targets(reqs) {
          AcceptedTargets(s, chain, reqs, after, pending, m);
        }
      }
    }
  }

  lemma ClosedAccepts(s: Sys, chain: Chain, reqs: seq<UpgradeRequest>, after: World, pending: Storage, t: Sys, q: UpgradeRequest)
    requires Upgraded(s, chain, reqs, after, pending, t) && Closed(t) && q in reqs && q.info.id != ACCOUNT
    ensures Accepted(s, pending, reqs, after, q)
  {
    AskedIsTarget(reqs, q);
    forall m, dep | m !in Targets(reqs) && dep in Declared(s, m) && dep.id == q.info.id
      ensures DependencyMet(pending.modules, after, dep)
    {
      UpgradedMetIff(s, chain, reqs, after, pending, t, m);
    }
  }

  lemma AcceptedTargets(s: Sys, chain: Chain, reqs: seq<UpgradeRequest>, after: World, pending: Storage, m: ModuleId)
    requires s.st.migrateContext == [] && UpgradeModules(s.st, chain, s.w, reqs) == Some(pending) && m !in Targets(reqs)
    requires forall q :: q in reqs && q.info.id != ACCOUNT ==> Accepted(s, pending, reqs, after, q)
    ensures forall dep :: dep in Declared(s, m) && dep.id in Targets(reqs) ==> DependencyMet(pending.modules, after, dep)
  {
    UpgradeModulesEffect(s, chain, reqs);
    forall dep | dep in Declared(s, m) && dep.id in Targets(reqs)
      ensures DependencyMet(pending.modules, after, dep)
    {
      var q := TheRequest(chain, reqs, dep.id);
      assert Accepted(s, pending, reqs, after, q);
    }
  }

  /** Known before the call: every dependent outside the request supports the version that the request asks for. */
  ghost predicate Supported(s: Sys, chain: Chain, reqs: seq<UpgradeRequest>, q: UpgradeRequest) {
    forall x :: x in DependentsOf(s.st.dependents, q.info.id) && x !in Targets(reqs) ==>
      Lookup(chain, q.info).Some? && Supports(s.st.modules, s.w, x, q.info.id, Lookup(chain, q.info).value.version)
  }

  /** For apps and adapters the first phase has established it. */
  lemma RecordedIsSupported(s: Sys, chain: Chain, reqs: seq<UpgradeRequest>, q: UpgradeRequest)
    requires s.st.migrateContext == [] && UpgradeModules(s.st, chain, s.w, reqs).Some?
    requires q in reqs && Recorded(chain, q)
    ensures Supported(s, chain, reqs, q)
  {
    UpgradeModulesEffect(s, chain, reqs);
    var pending := UpgradeModules(s.st, chain, s.w, reqs).value;
    assert Handled(s.st.modules, chain, s.w, q, pending);
    forall x | x in DependentsOf(s.st.dependents, q.info.id) && x !in Targets(reqs)
      ensures Supports(s.st.modules, s.w, x, q.info.id, Lookup(chain, q.info).value.version)
    {
      ContextIsRecorded(s, chain, reqs, x);
    }
  }

  /** At its registered version, a requested module is accepted by the dependents outside the request exactly when they support it. */
  lemma AcceptedIffSupported(s: Sys, chain: Chain, reqs: seq<UpgradeRequest>, after: World, pending: Storage, q: UpgradeRequest)
    requires Valid(s) && UpgradeModules(s.st, chain, s.w, reqs) == Some(pending)
    requires LandedAt(pending, chain, after, q) && q in reqs && q.info.id != ACCOUNT
    ensures Accepted(s, pending, reqs, after, q) <==> Supported(s, chain, reqs, q)
  {
    UpgradeModulesEffect(s, chain, reqs);
    assert Handled(s.st.modules, chain, s.w, q, pending);
    var id, version := q.info.id, Lookup(chain, q.info).value.version;
    forall m | m !in Targets(reqs)
      ensures (m in DependentsOf(s.st.dependents, id) ==> Supports(s.st.modules, s.w, m, id, version))
              <==> Accepts(Declared(s, m), id, version)
    {
      ListedSupports(s, m, id, version);
    }
    forall dep: Dependency | dep.id == id
      ensures DependencyMet(pending.modules, after, dep) <==> AllMatch(dep.versionReq, version)
    {}
  }

  /** Every requirement of the list on id accepts the version. */
  ghost predicate Accepts(deps: seq<Dependency>, id: ModuleId, v: Version) {
    forall dep :: dep in deps && dep.id == id ==> AllMatch(dep.versionReq, v)
  }

  lemma ListedSupports(s: Sys, m: ModuleId, id: ModuleId, v: Version)
    requires Valid(s)
    ensures (m in DependentsOf(s.st.dependents, id) ==> Supports(s.st.modules, s.w, m, id, v)) <==> Accepts(Declared(s, m), id, v)
  {
    assert ListsExactly(s.st.dependents, m, Declared(s, m));
    DepIdsMember(Declared(s, m), id);
    if m in DependentsOf(s.st.dependents, id) {
      SupportsByEntry(s, m, id, v);
    }
  }

  lemma SupportsByEntry(s: Sys, m: ModuleId, id: ModuleId, v: Version)
    requires Declared(s, m) != []
    ensures Supports(s.st.modules, s.w, m, id, v) <==> Accepts(Declared(s, m), id, v)
  {
    var deps := Declared(s, m);
    if Supports(s.st.modules, s.w, m, id, v) {
      forall dep | dep in deps && dep.id == id
        ensures AllMatch(dep.versionReq, v)
      {
        var i :| 0 <= i < |deps| && deps[i] == dep;
      }
    }
  }

  /**
   When the requested modules land on the versions the registry lists, the checks of the first phase are enough for apps
   and adapters: every dependency is met afterwards if and only if the standalones' dependents support the requested
   versions, which can be known before the call, and the standalones' own requirements are met.
   */
  lemma UpgradeClosedIffSupported(s: Sys, chain: Chain, reqs: seq<UpgradeRequest>, after: World, pending: Storage, t: Sys)
    requires Upgraded(s, chain, reqs, after, pending, t) && Landed(pending, chain, reqs, after)
    ensures Closed(t) <==>
            && (forall q :: q in reqs && StandaloneRequest(chain, reqs, q.info.id) ==> Supported(s, chain, reqs, q))
            && StandalonesMet(s, pending, chain, reqs, after)
  {
    UpgradeClosedIff(s, chain, reqs, after, pending, t);
    forall q | q in reqs && q.info.id != ACCOUNT
      ensures Recorded(chain, q) <==> !StandaloneRequest(chain, reqs, q.info.id)
      ensures Accepted(s, pending, reqs, after, q) <==> Supported(s, chain, reqs, q)
    {
      RequestKind(s, chain, reqs, q);
      AcceptedIffSupported(s, chain, reqs, after, pending, q);
    }
    forall q | q in reqs && StandaloneRequest(chain, reqs, q.info.id)
      ensures q.info.id != ACCOUNT
    {}
  }

  lemma AskedIsTarget(reqs: seq<UpgradeRequest>, q: UpgradeRequest)
    requires q in reqs && q.info.id != ACCOUNT
    ensures q.info.id in Targets(reqs)
  {
    var i :| 0 <= i < |reqs| && reqs[i] == q;
    assert reqs[i].info.id in Targets(reqs);
  }

  /** A request that was handled is for an app or adapter, or for a standalone. */
  lemma RequestKind(s: Sys, chain: Chain, reqs: seq<UpgradeRequest>, q: UpgradeRequest)
    requires s.st.migrateContext == [] && UpgradeModules(s.st, chain, s.w, reqs).Some?
    requires q in reqs && q.info.id != ACCOUNT
    ensures Recorded(chain, q) <==> !StandaloneRequest(chain, reqs, q.info.id)
  {
    UpgradeModulesEffect(s, chain, reqs);
    var pending := UpgradeModules(s.st, chain, s.w, reqs).value;
    assert Handled(s.st.modules, chain, s.w, q, pending);
    var i :| 0 <= i < |reqs| && reqs[i] == q;
    if StandaloneRequest(chain, reqs, q.info.id) {
      var j :| 0 <= j < |reqs| && reqs[j].info.id == q.info.id
               && Lookup(chain, reqs[j].info).Some? && Lookup(chain, reqs[j].info).value.reference.Standalone?;
      assert i == j;
    }
  }

  // ------------------------------------------------------------------ checked upgrades

  /** An app or adapter that was installed as a tracked module and names each dependency once. */
  ghost predicate Ordinary(s: Sys, chain: Chain, q: UpgradeRequest) {
    Recorded(chain, q) && WasTracked(s, q.info.id) && DistinctIds(Declared(s, q.info.id))
  }

  /** Known before the call: the dependency is installed, and accepts the version it has or is requested at. */
  ghost predicate Accommodated(s: Sys, chain: Chain, reqs: seq<UpgradeRequest>, dep: Dependency) {
    && dep.id in s.st.modules
    && (dep.id !in Targets(reqs) ==> DependencyMet(s.st.modules, s.w, dep))
    && (forall q :: q in reqs && q.info.id == dep.id && q.info.id != ACCOUNT && Lookup(chain, q.info).Some? ==>
          AllMatch(dep.versionReq, Lookup(chain, q.info).value.version))
  }

  /**
   A standalone that passes by itself what the account checks for others: its dependents support the requested version,
   and its new code declares the ids that the old one did, with requirements that are accommodated.
   */
  ghost predicate Harmless(s: Sys, chain: Chain, reqs: seq<UpgradeRequest>, after: World, q: UpgradeRequest) {
    && StandaloneRequest(chain, reqs, q.info.id) && q.info.id in s.st.modules
    && Supported(s, chain, reqs, q)
    && var deps := DepsAt(after, s.st.modules[q.info.id]);
       && DepIds(deps) == DepIds(Declared(s, q.info.id))
       && forall dep :: dep in deps ==> Accommodated(s, chain, reqs, dep)
  }

  /** Each request is ordinary, or for a harmless standalone, and the modules land on their registered versions. */
  ghost predicate Checked(s: Sys, chain: Chain, reqs: seq<UpgradeRequest>, after: World) {
    && (forall q :: q in reqs && q.info.id != ACCOUNT ==> Ordinary(s, chain, q) || Harmless(s, chain, reqs, after, q))
    && (UpgradeModules(s.st, chain, s.w, reqs).Some? ==>
          Landed(UpgradeModules(s.st, chain, s.w, reqs).value, chain, reqs, after))
  }

  /** Checked upgrades keep the index exact and every dependency met. */
  lemma CheckedUpgradeKeepsValid(s: Sys, chain: Chain, reqs: seq<UpgradeRequest>, after: World)
    requires Valid(s) && Untouched(s, after, Targets(reqs)) && Checked(s, chain, reqs, after)
    ensures Valid(Step(s, Upgrade(chain, reqs, after)))
  {
    if UpgradeModules(s.st, chain, s.w, reqs).Some? {
      var pending := UpgradeModules(s.st, chain, s.w, reqs).value;
      if FinishUpgrade(pending, after).Some? {
        var t := Step(s, Upgrade(chain, reqs, after));
        KindsAfter(s, chain, reqs, after, pending, t);
        CheckedIndexFriendly(s, chain, reqs, after, pending);
        UpgradeIndexIff(s, chain, reqs, after, pending, t);
        CheckedStandalonesMet(s, chain, reqs, after, pending);
        StandaloneRequestsSupported(s, chain, reqs, after);
        UpgradeClosedIffSupported(s, chain, reqs, after, pending, t);
      }
    }
  }

  lemma StandaloneRequestsSupported(s: Sys, chain: Chain, reqs: seq<UpgradeRequest>, after: World)
    requires s.st.migrateContext == [] && UpgradeModules(s.st, chain, s.w, reqs).Some? && Checked(s, chain, reqs, after)
    ensures forall q :: q in reqs && StandaloneRequest(chain, reqs, q.info.id) ==> Harmless(s, chain, reqs, after, q)
  {
    forall q | q in reqs && StandaloneRequest(chain, reqs, q.info.id)
      ensures Harmless(s, chain, reqs, after, q)
    {
      RequestKind(s, chain, reqs, q);
    }
  }

  lemma CheckedIndexFriendly(s: Sys, chain: Chain, reqs: seq<UpgradeRequest>, after: World, pending: Storage)
    requires Valid(s) && Checked(s, chain, reqs, after)
    requires UpgradeModules(s.st, chain, s.w, reqs) == Some(pending)
    ensures IndexFriendly(s, pending, chain, reqs, after)
  {
    UpgradeModulesEffect(s, chain, reqs);
    StandaloneRequestsSupported(s, chain, reqs, after);
    forall e | e in pending.migrateContext
      ensures MovesExactly(WasTracked(s, e.id), e.oldDeps, NewDeps(pending.modules, after, e))
    {
      ContextIsRecorded(s, chain, reqs, e.id);
      var q := TheRequest(chain, reqs, e.id);
      assert Migrating(pending.migrateContext, e.id) by {
        var i :| 0 <= i < |pending.migrateContext| && pending.migrateContext[i] == e;
      }
      DistinctNeverLoses(e.oldDeps, NewDeps(pending.modules, after, e));
    }
    forall id | id in s.st.modules && StandaloneRequest(chain, reqs, id)
      ensures DepIds(DepsAt(after, s.st.modules[id])) == DepIds(Declared(s, id))
    {
      StandaloneIsTarget(chain, reqs, id);
      var q := TheRequest(chain, reqs, id);
    }
  }

  lemma CheckedStandalonesMet(s: Sys, chain: Chain, reqs: seq<UpgradeRequest>, after: World, pending: Storage)
    requires Valid(s) && Untouched(s, after, Targets(reqs)) && Checked(s, chain, reqs, after)
    requires UpgradeModules(s.st, chain, s.w, reqs) == Some(pending)
    ensures StandalonesMet(s, pending, chain, reqs, after)
  {
    UpgradeModulesEffect(s, chain, reqs);
    StandaloneRequestsSupported(s, chain, reqs, after);
    forall id | id in s.st.modules && StandaloneRequest(chain, reqs, id)
      ensures AllMet(pending.modules, after, DepsAt(after, s.st.modules[id]))
    {
      StandaloneIsTarget(chain, reqs, id);
      var q := TheRequest(chain, reqs, id);
      var deps := DepsAt(after, s.st.modules[id]);
      forall i | 0 <= i < |deps|
        ensures DependencyMet(pending.modules, after, deps[i])
      {
        assert deps[i] in deps;
        AccommodatedIsMet(s, chain, reqs, after, pending, deps[i]);
      }
    }
  }

  lemma AccommodatedIsMet(s: Sys, chain: Chain, reqs: seq<UpgradeRequest>, after: World, pending: Storage, dep: Dependency)
    requires Valid(s) && Untouched(s, after, Targets(reqs))
    requires UpgradeModules(s.st, chain, s.w, reqs) == Some(pending) && Landed(pending, chain, reqs, after)
    requires Accommodated(s, chain, reqs, dep)
    ensures DependencyMet(pending.modules, after, dep)
  {
    UpgradeModulesEffect(s, chain, reqs);
    if dep.id in Targets(reqs) {
      var q := TheRequest(chain, reqs, dep.id);
      assert Handled(s.st.modules, chain, s.w, q, pending);
      assert LandedAt(pending, chain, after, q);
    }
  }

  // ------------------------------------------------------------------ whole runs

  function Run(s: Sys, actions: seq<Action>): Sys
    decreases actions
  {
    if actions == [] then s else Run(Step(s, actions[0]), actions[1..])
  }

  /**
   The steps of the runs: other contracts leave the data of installed modules alone, a batch asks for each module once,
   and upgrades are checked. None of this speaks of the index or of the dependencies that are met afterwards.
   */
  ghost predicate Admissible(s: Sys, a: Action) {
    match a
    case Install(_, batch, after) => Untouched(s, after, {}) && DistinctBatch(batch)
    case Uninstall(_, _) => true
    case Upgrade(chain, reqs, after) => Untouched(s, after, Targets(reqs)) && Checked(s, chain, reqs, after)
    case Elsewhere(after) => Untouched(s, after, {})
  }

  ghost predicate AdmissibleRun(s: Sys, actions: seq<Action>)
    decreases actions
  {
    actions == [] || (Admissible(s, actions[0]) && AdmissibleRun(Step(s, actions[0]), actions[1..]))
  }

  lemma StepKeepsValid(s: Sys, a: Action)
    requires Valid(s) && Admissible(s, a)
    ensures Valid(Step(s, a))
  {
    match a
    case Install(chain, batch, after) => InstallKeepsValid(s, chain, batch, after);
    case Uninstall(chain, id) => UninstallKeepsValid(s, chain, id);
    case Upgrade(chain, reqs, after) => CheckedUpgradeKeepsValid(s, chain, reqs, after);
    case Elsewhere(after) => ElsewhereKeepsValid(s, after);
  }

  /** After any run from a fresh account the index is exact and every dependency is met. */
  lemma {:induction false} RunKeepsValid(s: Sys, actions: seq<Action>)
    requires Valid(s) && AdmissibleRun(s, actions)
    ensures Valid(Run(s, actions))
    decreases actions
  {
    if actions != [] {
      StepKeepsValid(s, actions[0]);
      RunKeepsValid(Step(s, actions[0]), actions[1..]);
    }
  }

  lemma FreshRunsAreValid(w: World, actions: seq<Action>)
    requires AdmissibleRun(Sys(FRESH_STORAGE, w, map[]), actions)
    ensures var s := Run(Sys(FRESH_STORAGE, w, map[]), actions);
            && (forall m, d :: m in DependentsOf(s.st.dependents, d) <==>
                  m in s.st.modules && m in s.kinds && Tracked(s.kinds[m]) && d in DepIds(DepsAt(s.w, s.st.modules[m])))
            && (forall m :: m in s.st.modules && m in s.kinds && Tracked(s.kinds[m]) ==>
                  AllMet(s.st.modules, s.w, DepsAt(s.w, s.st.modules[m])))
  {
    FreshIsValid(w);
    RunKeepsValid(Sys(FRESH_STORAGE, w, map[]), actions);
    ValidSpelledOut(Run(Sys(FRESH_STORAGE, w, map[]), actions));
  }

  lemma FreshIsValid(w: World)
    ensures Valid(Sys(FRESH_STORAGE, w, map[]))
  {}

  /** The two invariants in terms of the stored maps and the contracts' own data. */
  lemma ValidSpelledOut(s: Sys)
    requires Valid(s)
    ensures forall m, d :: m in DependentsOf(s.st.dependents, d) <==>
              m in s.st.modules && m in s.kinds && Tracked(s.kinds[m]) && d in DepIds(DepsAt(s.w, s.st.modules[m]))
    ensures forall m :: m in s.st.modules && m in s.kinds && Tracked(s.kinds[m]) ==>
              AllMet(s.st.modules, s.w, DepsAt(s.w, s.st.modules[m]))
  {
    forall m, d
      ensures m in DependentsOf(s.st.dependents, d) <==>
              m in s.st.modules && m in s.kinds && Tracked(s.kinds[m]) && d in DepIds(DepsAt(s.w, s.st.modules[m]))
    {
      IndexExactIff(s, d, m);
    }
    forall m | m in s.st.modules && m in s.kinds && Tracked(s.kinds[m])
      ensures AllMet(s.st.modules, s.w, DepsAt(s.w, s.st.modules[m]))
    {
      assert AllMet(s.st.modules, s.w, Declared(s, m));
    }
  }
}
