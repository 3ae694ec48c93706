/**
 Upgrades. The first phase checks each app and adapter against the dependents that are not migrating, the second moves
 their index entries and checks their own requirements. A standalone gets neither. What both phases do, and exactly when
 the index survives them.
 */
module ModuleUpgrades {
  import opened Basics
  import opened Cosmos
  import opened ModuleTypes
  import opened Dependents
  import opened ModuleManager
  import opened ModuleRuns

  /** The request is for an app or adapter, which the migrate context records. */
  predicate Recorded(chain: Chain, req: UpgradeRequest) {
    && req.info.id != ACCOUNT
    && Lookup(chain, req.info).Some?
    && (Lookup(chain, req.info).value.reference.App? || Lookup(chain, req.info).value.reference.Adapter?)
  }

  /** The context entries of a list of requests, read from the modules as they were before. */
  function Entries(modules: map<ModuleId, Addr>, chain: Chain, w: World, reqs: seq<UpgradeRequest>): seq<MigrateEntry>
    decreases reqs
  {
    if reqs == [] then []
    else if Recorded(chain, reqs[0]) && reqs[0].info.id in modules then
      [MigrateEntry(reqs[0].info.id, DepsAt(w, modules[reqs[0].info.id]))] + Entries(modules, chain, w, reqs[1..])
    else Entries(modules, chain, w, reqs[1..])
  }

  ghost predicate Asks(reqs: seq<UpgradeRequest>, id: ModuleId) {
    exists i :: 0 <= i < |reqs| && reqs[i].info.id == id
  }

  ghost predicate DistinctRequests(reqs: seq<UpgradeRequest>) {
    forall i, j :: 0 <= i < j < |reqs| ==> reqs[i].info.id != reqs[j].info.id
  }

  lemma AsksHead(reqs: seq<UpgradeRequest>, id: ModuleId)
    requires reqs != []
    ensures Asks(reqs, id) <==> reqs[0].info.id == id || Asks(reqs[1..], id)
  {
    if i :| 0 <= i < |reqs| && reqs[i].info.id == id {
      assert i > 0 ==> reqs[1..][i - 1].info.id == id;
    }
    if i :| 0 <= i < |reqs[1..]| && reqs[1..][i].info.id == id {
      assert reqs[i + 1].info.id == id;
    }
  }

  lemma MigratingConcat(a: seq<MigrateEntry>, b: seq<MigrateEntry>, id: ModuleId)
    ensures Migrating(a + b, id) <==> Migrating(a, id) || Migrating(b, id)
  {
    if i :| 0 <= i < |a| && a[i].id == id {
      assert (a + b)[i].id == id;
    }
    if i :| 0 <= i < |b| && b[i].id == id {
      assert (a + b)[|a| + i].id == id;
    }
  }

  lemma DistinctHead(reqs: seq<UpgradeRequest>)
    requires reqs != []
    ensures DistinctRequests(reqs) <==> DistinctRequests(reqs[1..]) && !Asks(reqs[1..], reqs[0].info.id)
  {
    var rest := reqs[1..];
    assert forall i :: 0 <= i < |rest| ==> rest[i] == reqs[i + 1];
    if DistinctRequests(rest) && !Asks(rest, reqs[0].info.id) {
      forall i, j | 0 <= i < j < |reqs|
        ensures reqs[i].info.id != reqs[j].info.id
      {
        assert reqs[j] == rest[j - 1] && (i > 0 ==> reqs[i] == rest[i - 1]);
      }
    }
  }

  /** The module is asked for as an app or adapter. */
  ghost predicate RecordedId(chain: Chain, reqs: seq<UpgradeRequest>, id: ModuleId) {
    exists r :: r in reqs && r.info.id == id && Recorded(chain, r)
  }

  /** The head's own entry, if it has one. */
  function HeadEntry(modules: map<ModuleId, Addr>, chain: Chain, w: World, req: UpgradeRequest): seq<MigrateEntry> {
    if Recorded(chain, req) && req.info.id in modules then
      [MigrateEntry(req.info.id, DepsAt(w, modules[req.info.id]))]
    else []
  }

  lemma EntriesHead(modules: map<ModuleId, Addr>, chain: Chain, w: World, reqs: seq<UpgradeRequest>)
    requires reqs != []
    ensures Entries(modules, chain, w, reqs) == HeadEntry(modules, chain, w, reqs[0]) + Entries(modules, chain, w, reqs[1..])
  {}

  /** A module is in the context exactly when it was asked for as an app or adapter. */
  lemma {:induction false} EntriesMigrating(modules: map<ModuleId, Addr>, chain: Chain, w: World,
                                            reqs: seq<UpgradeRequest>, id: ModuleId)
    ensures Migrating(Entries(modules, chain, w, reqs), id) <==> RecordedId(chain, reqs, id) && id in modules
    decreases reqs
  {
    if reqs != [] {
      EntriesHead(modules, chain, w, reqs);
      EntriesMigrating(modules, chain, w, reqs[1..], id);
      var head := HeadEntry(modules, chain, w, reqs[0]);
      MigratingConcat(head, Entries(modules, chain, w, reqs[1..]), id);
      assert head != [] ==> head[0].id == reqs[0].info.id;
      assert forall r :: r in reqs <==> r == reqs[0] || r in reqs[1..];
    }
  }

  /** Every entry holds the dependencies its module had before the upgrade. */
  lemma {:induction false} EntriesOld(modules: map<ModuleId, Addr>, chain: Chain, w: World, reqs: seq<UpgradeRequest>)
    ensures forall e :: e in Entries(modules, chain, w, reqs) ==>
              e.id in modules && Asks(reqs, e.id) && e.oldDeps == DepsAt(w, modules[e.id])
    decreases reqs
  {
    if reqs != [] {
      EntriesHead(modules, chain, w, reqs);
      EntriesOld(modules, chain, w, reqs[1..]);
      forall e | e in Entries(modules, chain, w, reqs)
        ensures Asks(reqs, e.id)
      {
        AsksHead(reqs, e.id);
      }
    }
  }

  /** Distinct requests make distinct entries. */
  lemma {:induction false} EntriesDistinct(modules: map<ModuleId, Addr>, chain: Chain, w: World, reqs: seq<UpgradeRequest>)
    requires DistinctRequests(reqs)
    ensures DistinctEntries(Entries(modules, chain, w, reqs))
    decreases reqs
  {
    if reqs != [] {
      EntriesHead(modules, chain, w, reqs);
      DistinctHead(reqs);
      EntriesDistinct(modules, chain, w, reqs[1..]);
      EntriesOld(modules, chain, w, reqs[1..]);
      var head, rest := HeadEntry(modules, chain, w, reqs[0]), Entries(modules, chain, w, reqs[1..]);
      if head == [] {
        assert head + rest == rest;
      } else {
        assert head == [head[0]];
        DistinctCons(head[0], rest);
      }
    }
  }

  lemma DistinctCons(e: MigrateEntry, rest: seq<MigrateEntry>)
    requires DistinctEntries(rest) && forall x :: x in rest ==> x.id != e.id
    ensures DistinctEntries([e] + rest)
  {
    var all := [e] + rest;
    forall i, j | 0 <= i < j < |all|
      ensures all[i].id != all[j].id
    {
      assert all[j] == rest[j - 1] && rest[j - 1] in rest;
    }
  }

  ghost predicate DistinctEntries(context: seq<MigrateEntry>) {
    forall i, j :: 0 <= i < j < |context| ==> context[i].id != context[j].id
  }

  /** What the first phase has established about one request by the time it returns. */
  ghost predicate Handled(base: map<ModuleId, Addr>, chain: Chain, w: World, req: UpgradeRequest, r: Storage) {
    req.info.id == ACCOUNT ||
    (&& req.info.id in base && req.info.id in r.modules
     && Lookup(chain, req.info).Some?
     && var m := Lookup(chain, req.info).value;
        && m.id == req.info.id
        && (m.reference.App? || m.reference.Adapter? || m.reference.Standalone?)
        && r.modules[m.id] == (if m.reference.Adapter? then m.reference.addr else base[m.id])
        && (Recorded(chain, req) ==>
              forall x :: x in DependentsOf(r.dependents, m.id) ==>
                Migrating(r.migrateContext, x) || Supports(base, w, x, m.id, m.version)))
  }

  /** One turn of the loop, seen from the modules as they were before the upgrade. */
  lemma SetMigrateContextEffect(st: Storage, base: map<ModuleId, Addr>, chain: Chain, w: World, req: UpgradeRequest)
    requires SetMigrateContext(st, chain, w, req).Some? && req.info.id != ACCOUNT
    requires base.Keys == st.modules.Keys && base[req.info.id] == st.modules[req.info.id]
    requires forall x :: x in base ==> base[x] == st.modules[x] || Migrating(st.migrateContext, x)
    ensures var r := SetMigrateContext(st, chain, w, req).value;
            && r.dependents == st.dependents && r.installContext == st.installContext
            && r.callingToAsAdmin == st.callingToAsAdmin
            && r.modules.Keys == st.modules.Keys
            && (forall x :: x in st.modules && x != req.info.id ==> r.modules[x] == st.modules[x])
            && r.migrateContext == st.migrateContext + HeadEntry(base, chain, w, req)
            && (forall x :: x in base ==> base[x] == r.modules[x] || Migrating(r.migrateContext, x))
            && Handled(base, chain, w, req, r)
  {
    var r := SetMigrateContext(st, chain, w, req).value;
    var id := req.info.id;
    var m := RequestedModule(chain, StoredVersion(chain, w, st.modules[id]).value, req.info).value;
    if m.reference.Adapter? {
      SaveOne(st.modules, id, m.reference.addr);
    }
    var added := HeadEntry(base, chain, w, req);
    assert r.migrateContext == st.migrateContext + added;
    forall x
      ensures Migrating(r.migrateContext, x) <==> Migrating(st.migrateContext, x) || Migrating(added, x)
    {
      MigratingConcat(st.migrateContext, added, x);
    }
    if Recorded(chain, req) {
      assert added[0].id == id;
      forall x | x in DependentsOf(r.dependents, id)
        ensures Migrating(r.migrateContext, x) || Supports(base, w, x, id, m.version)
      {
        assert Migrating(st.migrateContext, x) || Supports(st.modules, w, x, id, m.version);
      }
    }
  }

  lemma SaveOne(modules: map<ModuleId, Addr>, id: ModuleId, a: Addr)
    requires SaveAddresses(modules, [(id, a)]).Ok?
    ensures SaveAddresses(modules, [(id, a)]) == Ok(modules[id := a])
  {
    assert [(id, a)][1..] == [];
  }

  /** The whole first phase: `done` ids are behind us, `base` is the map before the upgrade. */
  lemma {:induction false} UpgradeEachEffect(st: Storage, base: map<ModuleId, Addr>, chain: Chain, w: World,
                                             reqs: seq<UpgradeRequest>, done: seq<ModuleId>)
    requires UpgradeEach(st, chain, w, reqs, done).Some?
    requires base.Keys == st.modules.Keys
    requires forall x :: x in base && x !in done ==> base[x] == st.modules[x]
    requires forall x :: x in base ==> base[x] == st.modules[x] || Migrating(st.migrateContext, x)
    ensures var r := UpgradeEach(st, chain, w, reqs, done).value;
            && r.dependents == st.dependents && r.installContext == st.installContext
            && r.callingToAsAdmin == st.callingToAsAdmin
            && r.modules.Keys == st.modules.Keys
            && (forall x :: x in st.modules && (x == ACCOUNT || !Asks(reqs, x)) ==> r.modules[x] == st.modules[x])
            && r.migrateContext == st.migrateContext + Entries(base, chain, w, reqs)
            && (forall q :: q in reqs ==> Handled(base, chain, w, q, r))
    ensures DistinctRequests(reqs) && forall x :: x in done ==> !Asks(reqs, x)
    decreases reqs
  {
    var r := UpgradeEach(st, chain, w, reqs, done).value;
    if reqs == [] {
      assert st.migrateContext + [] == st.migrateContext;
    } else {
      var head, rest := reqs[0], reqs[1..];
      var next := if head.info.id == ACCOUNT then st else SetMigrateContext(st, chain, w, head).value;
      if head.info.id == ACCOUNT {
        assert HeadEntry(base, chain, w, head) == [];
        assert st.migrateContext + [] == st.migrateContext;
      } else {
        SetMigrateContextEffect(st, base, chain, w, head);
      }
      UpgradeEachEffect(next, base, chain, w, rest, done + [head.info.id]);
      EntriesHead(base, chain, w, reqs);
      Associative(st.migrateContext, HeadEntry(base, chain, w, head), Entries(base, chain, w, rest));
      DistinctHead(reqs);
      forall x
        ensures Asks(reqs, x) <==> head.info.id == x || Asks(rest, x)
      {
        AsksHead(reqs, x);
      }
      assert head.info.id in done + [head.info.id];
      HandledLater(base, chain, w, head, next, r);
      assert forall q :: q in reqs ==> q == head || q in rest;
    }
  }

  lemma Associative(a: seq<MigrateEntry>, b: seq<MigrateEntry>, c: seq<MigrateEntry>)
    ensures (a + b) + c == a + (b + c)
  {}

  /** What holds of a request when it is handled still holds when the phase ends. */
  lemma HandledLater(base: map<ModuleId, Addr>, chain: Chain, w: World, req: UpgradeRequest, next: Storage, r: Storage)
    requires Handled(base, chain, w, req, next)
    requires r.dependents == next.dependents && r.modules.Keys == next.modules.Keys
    requires req.info.id in next.modules ==> r.modules[req.info.id] == next.modules[req.info.id]
    requires next.migrateContext <= r.migrateContext
    ensures Handled(base, chain, w, req, r)
  {
    forall x | Migrating(next.migrateContext, x)
      ensures Migrating(r.migrateContext, x)
    {
      var i :| 0 <= i < |next.migrateContext| && next.migrateContext[i].id == x;
      assert r.migrateContext[i].id == x;
    }
  }

  // ------------------------------------------------------------------ second phase

  /** The entry's new contract can be read and its requirements are met. */
  ghost predicate EntryPasses(modules: map<ModuleId, Addr>, w: World, e: MigrateEntry) {
    e.id in modules && DataAt(w, modules[e.id]).Some? && AllMet(modules, w, DepsAt(w, modules[e.id]))
  }

  /** The ids that an entry takes its module out of, and those it puts it under. */
  ghost function Gone(modules: map<ModuleId, Addr>, w: World, e: MigrateEntry): set<ModuleId> {
    DepIds(Without(e.oldDeps, NewDeps(modules, w, e)))
  }

  ghost function Added(modules: map<ModuleId, Addr>, w: World, e: MigrateEntry): set<ModuleId> {
    DepIds(Without(NewDeps(modules, w, e), e.oldDeps))
  }

  ghost function AllAdded(modules: map<ModuleId, Addr>, w: World, context: seq<MigrateEntry>): set<ModuleId>
    decreases context
  {
    if context == [] then {} else Added(modules, w, context[0]) + AllAdded(modules, w, context[1..])
  }

  /** Each id that an entry removes has a stored set by then: from the start, or from an earlier entry. */
  ghost predicate StoredInTime(modules: map<ModuleId, Addr>, keys: set<ModuleId>, w: World, context: seq<MigrateEntry>) {
    forall i :: 0 <= i < |context| ==> Gone(modules, w, context[i]) <= keys + AllAdded(modules, w, context[..i])
  }

  lemma StoredInTimeHead(modules: map<ModuleId, Addr>, keys: set<ModuleId>, w: World, context: seq<MigrateEntry>)
    requires context != []
    ensures StoredInTime(modules, keys, w, context) <==>
            && Gone(modules, w, context[0]) <= keys
            && StoredInTime(modules, keys + Added(modules, w, context[0]), w, context[1..])
  {
    var rest := context[1..];
    forall i | 0 <= i < |rest|
      ensures keys + AllAdded(modules, w, context[..i + 1])
              == keys + Added(modules, w, context[0]) + AllAdded(modules, w, rest[..i])
      ensures rest[i] == context[i + 1]
    {
      assert context[..i + 1][1..] == rest[..i] && context[..i + 1][0] == context[0];
    }
    assert context[..0] == [];
    if Gone(modules, w, context[0]) <= keys && StoredInTime(modules, keys + Added(modules, w, context[0]), w, rest) {
      forall i | 0 <= i < |context|
        ensures Gone(modules, w, context[i]) <= keys + AllAdded(modules, w, context[..i])
      {
        if i > 0 {
          assert context[i] == rest[i - 1] && context[..i - 1 + 1] == context[..i];
        }
      }
    }
    if StoredInTime(modules, keys, w, context) {
      forall i | 0 <= i < |rest|
        ensures Gone(modules, w, rest[i]) <= keys + Added(modules, w, context[0]) + AllAdded(modules, w, rest[..i])
      {
        assert Gone(modules, w, context[i + 1]) <= keys + AllAdded(modules, w, context[..i + 1]);
      }
    }
  }

  /** On any index, the reply fails only on its own checks or on a missing dependents set. */
  lemma {:induction false} FinishFromIff(modules: map<ModuleId, Addr>, ix: Index, w: World, context: seq<MigrateEntry>)
    ensures FinishFrom(modules, ix, w, context).Some? <==>
            && (forall e :: e in context ==> EntryPasses(modules, w, e))
            && StoredInTime(modules, ix.Keys, w, context)
    decreases context
  {
    if context != [] {
      var e, rest := context[0], context[1..];
      assert forall x :: x in context <==> x == e || x in rest;
      StoredInTimeHead(modules, ix.Keys, w, context);
      FinishEntryEffect(modules, ix, w, e);
      if FinishEntry(modules, ix, w, e).Some? {
        FinishFromIff(modules, FinishEntry(modules, ix, w, e).value, w, rest);
      }
    }
  }

  /** The entries of one module move from its old list to its new one. */
  ghost predicate Moved(ix: Index, next: Index, modules: map<ModuleId, Addr>, w: World, e: MigrateEntry) {
    forall d :: e.id in DependentsOf(next, d) <==>
      (e.id in DependentsOf(ix, d) && d !in Gone(modules, w, e)) || d in Added(modules, w, e)
  }

  ghost predicate SameEntries(ix: Index, next: Index, m: ModuleId) {
    forall d :: m in DependentsOf(next, d) <==> m in DependentsOf(ix, d)
  }

  lemma FinishEntryEffect(modules: map<ModuleId, Addr>, ix: Index, w: World, e: MigrateEntry)
    ensures var r := FinishEntry(modules, ix, w, e);
            && (r.Some? <==> EntryPasses(modules, w, e) && Gone(modules, w, e) <= ix.Keys)
            && (r.Some? ==>
                  && r.value.Keys == ix.Keys + Added(modules, w, e)
                  && Moved(ix, r.value, modules, w, e)
                  && forall m :: m != e.id ==> SameEntries(ix, r.value, m))
  {
    RetargetEffect(ix, e.id, e.oldDeps, NewDeps(modules, w, e));
  }

  /** A successful reply moves the entries of the migrating modules and of no others. */
  lemma {:induction false} FinishFromEffect(modules: map<ModuleId, Addr>, ix: Index, w: World, context: seq<MigrateEntry>)
    requires DistinctEntries(context) && FinishFrom(modules, ix, w, context).Some?
    ensures var r := FinishFrom(modules, ix, w, context).value;
            && (forall m :: !Migrating(context, m) ==> SameEntries(ix, r, m))
            && (forall i :: 0 <= i < |context| ==> Moved(ix, r, modules, w, context[i]))
    decreases context
  {
    if context != [] {
      var e, rest := context[0], context[1..];
      var next := FinishEntry(modules, ix, w, e).value;
      FinishEntryEffect(modules, ix, w, e);
      FinishFromEffect(modules, next, w, rest);
      var r := FinishFrom(modules, ix, w, context).value;
      MoveHeadFirst(modules, ix, next, r, w, context);
    }
  }

  /** Moving the head entry and then the others. */
  lemma MoveHeadFirst(modules: map<ModuleId, Addr>, ix: Index, next: Index, r: Index, w: World, context: seq<MigrateEntry>)
    requires context != [] && DistinctEntries(context)
    requires Moved(ix, next, modules, w, context[0]) && forall m :: m != context[0].id ==> SameEntries(ix, next, m)
    requires forall m :: !Migrating(context[1..], m) ==> SameEntries(next, r, m)
    requires forall i :: 0 <= i < |context[1..]| ==> Moved(next, r, modules, w, context[1..][i])
    ensures forall m :: !Migrating(context, m) ==> SameEntries(ix, r, m)
    ensures forall i :: 0 <= i < |context| ==> Moved(ix, r, modules, w, context[i])
  {
    var e, rest := context[0], context[1..];
    assert !Migrating(rest, e.id);
    assert SameEntries(next, r, e.id);
    forall m | !Migrating(context, m)
      ensures SameEntries(ix, r, m)
    {
      assert context[0].id != m;
      NotMigratingTail(context, m);
      assert SameEntries(ix, next, m) && SameEntries(next, r, m);
    }
    forall i | 0 <= i < |context|
      ensures Moved(ix, r, modules, w, context[i])
    {
      if i > 0 {
        assert context[i] == rest[i - 1] && context[i].id != e.id;
        MovedAfterOther(ix, next, r, modules, w, context[i]);
      }
    }
  }

  lemma NotMigratingTail(context: seq<MigrateEntry>, m: ModuleId)
    requires context != [] && !Migrating(context, m)
    ensures !Migrating(context[1..], m)
  {
    forall i | 0 <= i < |context[1..]|
      ensures context[1..][i].id != m
    {
      assert context[i + 1].id != m;
    }
  }

  lemma MovedAfterOther(ix: Index, next: Index, r: Index, modules: map<ModuleId, Addr>, w: World, e: MigrateEntry)
    requires SameEntries(ix, next, e.id) && Moved(next, r, modules, w, e)
    ensures Moved(ix, r, modules, w, e)
  {}

  // ------------------------------------------------------------------ both phases together

  lemma TargetsAsked(reqs: seq<UpgradeRequest>, id: ModuleId)
    ensures id in Targets(reqs) <==> Asks(reqs, id) && id != ACCOUNT
  {
    if Asks(reqs, id) && id != ACCOUNT {
      var i :| 0 <= i < |reqs| && reqs[i].info.id == id;
      assert reqs[i].info.id in Targets(reqs);
    }
  }

  /** Every request of a successful first phase was handled; the others' addresses did not change. */
  lemma UpgradeModulesEffect(s: Sys, chain: Chain, reqs: seq<UpgradeRequest>)
    requires s.st.migrateContext == [] && UpgradeModules(s.st, chain, s.w, reqs).Some?
    ensures var pending := UpgradeModules(s.st, chain, s.w, reqs).value;
            && pending.dependents == s.st.dependents
            && pending.modules.Keys == s.st.modules.Keys
            && (forall x :: x in s.st.modules && x !in Targets(reqs) ==> pending.modules[x] == s.st.modules[x])
            && pending.migrateContext == Entries(s.st.modules, chain, s.w, reqs)
            && (forall q :: q in reqs ==> Handled(s.st.modules, chain, s.w, q, pending))
            && DistinctRequests(reqs)
  {
    var start := s.st.(callingToAsAdmin := Some(CALLING_TO_AS_ADMIN_WILD_CARD));
    UpgradeEachEffect(start, s.st.modules, chain, s.w, reqs, []);
    assert [] + Entries(s.st.modules, chain, s.w, reqs) == Entries(s.st.modules, chain, s.w, reqs);
    forall x
      ensures x in Targets(reqs) <==> Asks(reqs, x) && x != ACCOUNT
    {
      TargetsAsked(reqs, x);
    }
  }

  /** The reference recorded for a requested module is the one the registry lists; the others keep theirs. */
  lemma {:induction false} RecordUpgradesEffect(kinds: map<ModuleId, ModuleReference>, chain: Chain, reqs: seq<UpgradeRequest>)
    requires DistinctRequests(reqs)
    requires forall q :: q in reqs && q.info.id != ACCOUNT && Lookup(chain, q.info).Some? ==> q.info.id in kinds
    ensures var r := RecordUpgrades(kinds, chain, reqs);
            && r.Keys == kinds.Keys
            && (forall m :: m in kinds && (m == ACCOUNT || !Asks(reqs, m)) ==> r[m] == kinds[m])
            && (forall q :: q in reqs && q.info.id != ACCOUNT && Lookup(chain, q.info).Some? ==>
                  r[q.info.id] == Lookup(chain, q.info).value.reference)
    decreases reqs
  {
    if reqs != [] {
      var q, rest := reqs[0], reqs[1..];
      var m := Lookup(chain, q.info);
      var next := if m.Some? && m.value.id != ACCOUNT then kinds[m.value.id := m.value.reference] else kinds;
      DistinctHead(reqs);
      assert q in reqs && forall p :: p in reqs <==> p == q || p in rest;
      RecordUpgradesEffect(next, chain, rest);
      forall x
        ensures Asks(reqs, x) <==> q.info.id == x || Asks(rest, x)
      {
        AsksHead(reqs, x);
      }
    }
  }

  /** One successful upgrade: the state before, between the phases, and after. */
  ghost predicate Completed(s: Sys, chain: Chain, reqs: seq<UpgradeRequest>, after: World, pending: Storage, t: Sys) {
    && s.kinds.Keys == s.st.modules.Keys && s.st.migrateContext == []
    && UpgradeModules(s.st, chain, s.w, reqs) == Some(pending)
    && FinishUpgrade(pending, after) == Some(t.st)
    && t == Sys(t.st, after, RecordUpgrades(s.kinds, chain, reqs))
  }

  /** The hypotheses shared by the results about the index and the closure. */
  ghost predicate Upgraded(s: Sys, chain: Chain, reqs: seq<UpgradeRequest>, after: World, pending: Storage, t: Sys) {
    Valid(s) && Untouched(s, after, Targets(reqs)) && Completed(s, chain, reqs, after, pending, t)
  }

  lemma KindsAfter(s: Sys, chain: Chain, reqs: seq<UpgradeRequest>, after: World, pending: Storage, t: Sys)
    requires Completed(s, chain, reqs, after, pending, t)
    ensures t.st.modules == pending.modules && t.kinds.Keys == t.st.modules.Keys == s.st.modules.Keys
    ensures forall m :: m in s.kinds && m !in Targets(reqs) ==> t.kinds[m] == s.kinds[m]
    ensures forall q :: q in reqs && q.info.id != ACCOUNT ==>
              && Lookup(chain, q.info).Some? && q.info.id in t.kinds
              && t.kinds[q.info.id] == Lookup(chain, q.info).value.reference
              && Tracked(t.kinds[q.info.id])
  {
    UpgradeModulesEffect(s, chain, reqs);
    forall q | q in reqs && q.info.id != ACCOUNT
      ensures Lookup(chain, q.info).Some? && q.info.id in s.kinds && Tracked(Lookup(chain, q.info).value.reference)
    {
      assert Handled(s.st.modules, chain, s.w, q, pending);
    }
    RecordUpgradesEffect(s.kinds, chain, reqs);
    forall m
      ensures m in Targets(reqs) <==> Asks(reqs, m) && m != ACCOUNT
    {
      TargetsAsked(reqs, m);
    }
  }

  /** Among distinct requests the one for m decides whether m is in the context. */
  lemma TheRequest(chain: Chain, reqs: seq<UpgradeRequest>, m: ModuleId) returns (q: UpgradeRequest)
    requires m in Targets(reqs) && DistinctRequests(reqs)
    ensures q in reqs && q.info.id == m && m != ACCOUNT
    ensures RecordedId(chain, reqs, m) <==> Recorded(chain, q)
    ensures StandaloneRequest(chain, reqs, m) <==>
            Lookup(chain, q.info).Some? && Lookup(chain, q.info).value.reference.Standalone?
  {
    var i :| 0 <= i < |reqs| && reqs[i].info.id != ACCOUNT && reqs[i].info.id == m;
    q := reqs[i];
    forall p | p in reqs && p.info.id == m
      ensures p == q
    {
      var j :| 0 <= j < |reqs| && reqs[j] == p;
    }
  }

  lemma RecordedIsTarget(chain: Chain, reqs: seq<UpgradeRequest>, m: ModuleId)
    requires RecordedId(chain, reqs, m)
    ensures m in Targets(reqs)
  {
    var r :| r in reqs && r.info.id == m && Recorded(chain, r);
    var i :| 0 <= i < |reqs| && reqs[i] == r;
    assert reqs[i].info.id in Targets(reqs);
  }

  lemma StandaloneIsTarget(chain: Chain, reqs: seq<UpgradeRequest>, id: ModuleId)
    requires StandaloneRequest(chain, reqs, id)
    ensures id in Targets(reqs)
  {
    var i :| 0 <= i < |reqs| && reqs[i].info.id == id && id != ACCOUNT
             && Lookup(chain, reqs[i].info).Some? && Lookup(chain, reqs[i].info).value.reference.Standalone?;
    assert reqs[i].info.id in Targets(reqs);
  }

  /** The context holds exactly the requested apps and adapters, each with the dependencies it had. */
  lemma ContextIsRecorded(s: Sys, chain: Chain, reqs: seq<UpgradeRequest>, m: ModuleId)
    requires s.st.migrateContext == [] && UpgradeModules(s.st, chain, s.w, reqs).Some?
    ensures var pending := UpgradeModules(s.st, chain, s.w, reqs).value;
            && DistinctEntries(pending.migrateContext)
            && (Migrating(pending.migrateContext, m) <==> m in Targets(reqs) && !StandaloneRequest(chain, reqs, m))
            && (forall e :: e in pending.migrateContext ==>
                  e.id in s.st.modules && e.id in Targets(reqs) && e.oldDeps == DepsAt(s.w, s.st.modules[e.id]))
  {
    UpgradeModulesEffect(s, chain, reqs);
    var pending := UpgradeModules(s.st, chain, s.w, reqs).value;
    EntriesDistinct(s.st.modules, chain, s.w, reqs);
    EntriesOld(s.st.modules, chain, s.w, reqs);
    EntriesMigrating(s.st.modules, chain, s.w, reqs, m);
    if m in Targets(reqs) {
      var q := TheRequest(chain, reqs, m);
      assert Handled(s.st.modules, chain, s.w, q, pending);
    }
    if RecordedId(chain, reqs, m) {
      RecordedIsTarget(chain, reqs, m);
      var q := TheRequest(chain, reqs, m);
    }
    forall e | e in pending.migrateContext
      ensures e.id in Targets(reqs)
    {
      EntryIsTarget(s.st.modules, chain, s.w, reqs, e);
    }
  }

  lemma EntryIsTarget(modules: map<ModuleId, Addr>, chain: Chain, w: World, reqs: seq<UpgradeRequest>, e: MigrateEntry)
    requires e in Entries(modules, chain, w, reqs)
    ensures e.id in Targets(reqs)
  {
    EntriesMigrating(modules, chain, w, reqs, e.id);
    var i :| 0 <= i < |Entries(modules, chain, w, reqs)| && Entries(modules, chain, w, reqs)[i] == e;
    RecordedIsTarget(chain, reqs, e.id);
  }

  /** What an upgrade leaves of a module that was not asked for: its declarations. */
  lemma UnaskedModule(s: Sys, chain: Chain, reqs: seq<UpgradeRequest>, after: World, pending: Storage, t: Sys, m: ModuleId)
    requires Upgraded(s, chain, reqs, after, pending, t) && m !in Targets(reqs)
    ensures Declared(t, m) == Declared(s, m)
    ensures !Migrating(pending.migrateContext, m) && !StandaloneRequest(chain, reqs, m)
  {
    UpgradeModulesEffect(s, chain, reqs);
    KindsAfter(s, chain, reqs, after, pending, t);
    ContextIsRecorded(s, chain, reqs, m);
    if StandaloneRequest(chain, reqs, m) {
      StandaloneIsTarget(chain, reqs, m);
    }
  }

  /** A module that was asked for is tracked afterwards, and declares what its contract now says. */
  lemma AskedModule(s: Sys, chain: Chain, reqs: seq<UpgradeRequest>, after: World, pending: Storage, t: Sys, m: ModuleId)
    requires Completed(s, chain, reqs, after, pending, t) && m in Targets(reqs)
    ensures m in s.st.modules && m in pending.modules
    ensures Declared(t, m) == DepsAt(after, pending.modules[m])
    ensures Migrating(pending.migrateContext, m) <==> !StandaloneRequest(chain, reqs, m)
    ensures StandaloneRequest(chain, reqs, m) ==> pending.modules[m] == s.st.modules[m]
  {
    UpgradeModulesEffect(s, chain, reqs);
    KindsAfter(s, chain, reqs, after, pending, t);
    ContextIsRecorded(s, chain, reqs, m);
    var q := TheRequest(chain, reqs, m);
    assert Handled(s.st.modules, chain, s.w, q, pending);
  }

  /** The second phase applied to the first: what it checked, and what it did to the index. */
  lemma FinishEffect(s: Sys, chain: Chain, reqs: seq<UpgradeRequest>, after: World, pending: Storage, t: Sys)
    requires Upgraded(s, chain, reqs, after, pending, t)
    ensures forall e :: e in pending.migrateContext ==>
              && EntryPasses(pending.modules, after, e)
              && (ListsExactly(t.st.dependents, e.id, NewDeps(pending.modules, after, e))
                  <==> MovesExactly(WasTracked(s, e.id), e.oldDeps, NewDeps(pending.modules, after, e)))
    ensures forall m :: !Migrating(pending.migrateContext, m) ==> SameEntries(s.st.dependents, t.st.dependents, m)
  {
    UpgradeModulesEffect(s, chain, reqs);
    ContextIsRecorded(s, chain, reqs, "");
    FinishApplied(pending, after, t.st);
    forall e | e in pending.migrateContext
      ensures ListsExactly(t.st.dependents, e.id, NewDeps(pending.modules, after, e))
              <==> MovesExactly(WasTracked(s, e.id), e.oldDeps, NewDeps(pending.modules, after, e))
    {
      EntryMoved(s, t.st.dependents, pending.modules, after, e);
    }
  }

  lemma FinishApplied(pending: Storage, after: World, st: Storage)
    requires FinishUpgrade(pending, after) == Some(st) && DistinctEntries(pending.migrateContext)
    ensures forall e :: e in pending.migrateContext ==>
              EntryPasses(pending.modules, after, e) && Moved(pending.dependents, st.dependents, pending.modules, after, e)
    ensures forall m :: !Migrating(pending.migrateContext, m) ==> SameEntries(pending.dependents, st.dependents, m)
  {
    FinishFromIff(pending.modules, pending.dependents, after, pending.migrateContext);
    FinishFromEffect(pending.modules, pending.dependents, after, pending.migrateContext);
  }

  lemma EntryMoved(s: Sys, next: Index, modules: map<ModuleId, Addr>, after: World, e: MigrateEntry)
    requires Valid(s) && e.id in s.st.modules && e.oldDeps == DepsAt(s.w, s.st.modules[e.id])
    requires Moved(s.st.dependents, next, modules, after, e)
    ensures ListsExactly(next, e.id, NewDeps(modules, after, e))
            <==> MovesExactly(WasTracked(s, e.id), e.oldDeps, NewDeps(modules, after, e))
  {
    assert ListsExactly(s.st.dependents, e.id, Declared(s, e.id));
    MovedListing(s.st.dependents, next, e.id, WasTracked(s, e.id), e.oldDeps, NewDeps(modules, after, e));
  }

  /**
   The reply of an upgrade never hits a missing dependents set when the apps and adapters asked for were installed
   as tracked modules: it fails only on its own checks.
   */
  lemma FinishNeverPanics(s: Sys, chain: Chain, reqs: seq<UpgradeRequest>, after: World)
    requires Valid(s) && UpgradeModules(s.st, chain, s.w, reqs).Some?
    requires forall q :: q in reqs && Recorded(chain, q) ==> WasTracked(s, q.info.id)
    ensures var pending := UpgradeModules(s.st, chain, s.w, reqs).value;
            FinishUpgrade(pending, after).Some? <==>
              forall e :: e in pending.migrateContext ==> EntryPasses(pending.modules, after, e)
  {
    var pending := UpgradeModules(s.st, chain, s.w, reqs).value;
    UpgradeModulesEffect(s, chain, reqs);
    FinishFromIff(pending.modules, pending.dependents, after, pending.migrateContext);
    forall i | 0 <= i < |pending.migrateContext|
      ensures Gone(pending.modules, after, pending.migrateContext[i]) <= s.st.dependents.Keys
    {
      GoneIsStored(s, chain, reqs, after, pending, pending.migrateContext[i]);
    }
  }

  lemma GoneIsStored(s: Sys, chain: Chain, reqs: seq<UpgradeRequest>, after: World, pending: Storage, e: MigrateEntry)
    requires Valid(s) && UpgradeModules(s.st, chain, s.w, reqs) == Some(pending)
    requires e in pending.migrateContext
    requires forall q :: q in reqs && Recorded(chain, q) ==> WasTracked(s, q.info.id)
    ensures Gone(pending.modules, after, e) <= s.st.dependents.Keys
  {
    ContextIsRecorded(s, chain, reqs, e.id);
    UpgradeModulesEffect(s, chain, reqs);
    EntriesMigrating(s.st.modules, chain, s.w, reqs, e.id);
    var i :| 0 <= i < |pending.migrateContext| && pending.migrateContext[i] == e;
    assert Migrating(pending.migrateContext, e.id);
    assert ListsExactly(s.st.dependents, e.id, Declared(s, e.id));
    forall d | d in Gone(pending.modules, after, e)
      ensures d in s.st.dependents
    {
      DepIdsMember(Without(e.oldDeps, NewDeps(pending.modules, after, e)), d);
      DepIdsMember(e.oldDeps, d);
      assert e.id in DependentsOf(s.st.dependents, d);
    }
  }

  /**
   After an upgrade the index is exact if and only if the comparison of old and new lists moves every app and adapter
   exactly, and the standalones still declare the ids they were listed for.
   */
  lemma UpgradeIndexIff(s: Sys, chain: Chain, reqs: seq<UpgradeRequest>, after: World, pending: Storage, t: Sys)
    requires Upgraded(s, chain, reqs, after, pending, t)
    ensures IndexExact(t) <==> IndexFriendly(s, pending, chain, reqs, after)
  {
    forall m
      ensures ListsExactly(t.st.dependents, m, Declared(t, m)) <==> ModuleFriendly(s, pending, chain, reqs, after, m)
    {
      UpgradedListing(s, chain, reqs, after, pending, t, m);
    }
    FriendlyByModule(s, pending, chain, reqs, after);
    assert IndexExact(t) <==> forall m :: ListsExactly(t.st.dependents, m, Declared(t, m));
  }

  lemma UpgradedListing(s: Sys, chain: Chain, reqs: seq<UpgradeRequest>, after: World, pending: Storage, t: Sys, m: ModuleId)
    requires Upgraded(s, chain, reqs, after, pending, t)
    ensures ListsExactly(t.st.dependents, m, Declared(t, m)) <==> ModuleFriendly(s, pending, chain, reqs, after, m)
  {
    FinishEffect(s, chain, reqs, after, pending, t);
    assert ListsExactly(s.st.dependents, m, Declared(s, m));
    if m in Targets(reqs) {
      AskedModule(s, chain, reqs, after, pending, t, m);
    } else {
      UnaskedModule(s, chain, reqs, after, pending, t, m);
    }
    if Migrating(pending.migrateContext, m) {
      var i :| 0 <= i < |pending.migrateContext| && pending.migrateContext[i].id == m;
      ContextIsRecorded(s, chain, reqs, m);
      OnlyEntry(pending.migrateContext, i);
      assert NewDeps(pending.modules, after, pending.migrateContext[i]) == Declared(t, m);
    } else {
      SameListing(s.st.dependents, t.st.dependents, m, Declared(s, m), Declared(t, m));
      NoEntry(pending.migrateContext, m);
    }
  }

  lemma OnlyEntry(context: seq<MigrateEntry>, i: nat)
    requires DistinctEntries(context) && i < |context|
    ensures forall e :: e in context && e.id == context[i].id ==> e == context[i]
  {
    forall e | e in context && e.id == context[i].id
      ensures e == context[i]
    {
      var j :| 0 <= j < |context| && context[j] == e;
    }
  }

  lemma NoEntry(context: seq<MigrateEntry>, m: ModuleId)
    requires !Migrating(context, m)
    ensures forall e :: e in context ==> e.id != m
  {
    forall e | e in context
      ensures e.id != m
    {
      var i :| 0 <= i < |context| && context[i] == e;
    }
  }

  /** The part of `IndexFriendly` about one module. */
  ghost predicate ModuleFriendly(s: Sys, pending: Storage, chain: Chain, reqs: seq<UpgradeRequest>, after: World, m: ModuleId) {
    && (forall e :: e in pending.migrateContext && e.id == m ==>
          MovesExactly(WasTracked(s, e.id), e.oldDeps, NewDeps(pending.modules, after, e)))
    && (m in s.st.modules && StandaloneRequest(chain, reqs, m) ==>
          DepIds(DepsAt(after, s.st.modules[m])) == DepIds(Declared(s, m)))
  }

  lemma FriendlyByModule(s: Sys, pending: Storage, chain: Chain, reqs: seq<UpgradeRequest>, after: World)
    ensures IndexFriendly(s, pending, chain, reqs, after)
            <==> forall m :: ModuleFriendly(s, pending, chain, reqs, after, m)
  {
    if forall m :: ModuleFriendly(s, pending, chain, reqs, after, m) {
      forall e | e in pending.migrateContext
        ensures MovesExactly(WasTracked(s, e.id), e.oldDeps, NewDeps(pending.modules, after, e))
      {
        assert ModuleFriendly(s, pending, chain, reqs, after, e.id);
      }
      forall id | id in s.st.modules && StandaloneRequest(chain, reqs, id)
        ensures DepIds(DepsAt(after, s.st.modules[id])) == DepIds(Declared(s, id))
      {
        assert ModuleFriendly(s, pending, chain, reqs, after, id);
      }
    }
  }

  lemma SameListing(a: Index, b: Index, m: ModuleId, earlier: seq<Dependency>, later: seq<Dependency>)
    requires SameEntries(a, b, m) && ListsExactly(a, m, earlier)
    ensures ListsExactly(b, m, later) <==> DepIds(later) == DepIds(earlier)
  {
    if ListsExactly(b, m, later) {
      forall d
        ensures d in DepIds(later) <==> d in DepIds(earlier)
      {
        assert m in DependentsOf(b, d) <==> m in DependentsOf(a, d);
      }
    }
  }
}
