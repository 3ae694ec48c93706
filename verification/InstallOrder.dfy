/**
 The order of an install batch. When the batch asks for each module once, every order of it is accepted or refused alike,
 and makes the same modules and the same index.
 */
module InstallOrder {
  import opened Basics
  import opened Cosmos
  import opened ModuleTypes
  import opened Whitelist
  import opened Dependents
  import opened ModuleManager
  import opened InstallChecks
  import opened ModuleRuns

  // ------------------------------------------------------------------ the reply

  /** Contexts with the same entries are accepted or refused alike, and leave the same stored index. */
  lemma RegisterOrderIrrelevant(modules: map<ModuleId, Addr>, ix: Index, w: World,
                                context: seq<InstallEntry>, shuffled: seq<InstallEntry>)
    requires forall e :: e in context <==> e in shuffled
    ensures var r, t := RegisterFrom(modules, ix, w, context), RegisterFrom(modules, ix, w, shuffled);
            && (r.Ok? <==> t.Ok?)
            && (r.Ok? ==> r.value == t.value)
  {
    RegisterFromExact(modules, ix, w, context);
    RegisterFromExact(modules, ix, w, shuffled);
    if RegisterFrom(modules, ix, w, context).Ok? {
      SameIndex(RegisterFrom(modules, ix, w, context).value, RegisterFrom(modules, ix, w, shuffled).value);
    }
  }

  lemma SameIndex(r: Index, t: Index)
    requires forall d :: d in r <==> d in t
    requires forall d, m :: m in DependentsOf(r, d) <==> m in DependentsOf(t, d)
    ensures r == t
  {
    forall d | d in r
      ensures r[d] == t[d]
    {
      assert r[d] == DependentsOf(r, d) && t[d] == DependentsOf(t, d);
    }
  }

  // ------------------------------------------------------------------ the first phase, request by request

  /** The request can be resolved and placed, whatever else is in the batch. */
  ghost predicate Installable(modules: map<ModuleId, Addr>, chain: Chain, w: World, c: InstallConfig) {
    && Lookup(chain, c.info).Some?
    && Placeable(modules, chain, w, Lookup(chain, c.info).value, c.hasInitMsg)
    && c.info.id != ""
  }

  /** Where the requested module will live. */
  function AddressOf(chain: Chain, c: InstallConfig): Addr
    requires Lookup(chain, c.info).Some?
  {
    HomeOf(chain, Lookup(chain, c.info).value)
  }

  function EntryOf(chain: Chain, c: InstallConfig): InstallEntry
    requires Lookup(chain, c.info).Some?
  {
    InstallEntry(Lookup(chain, c.info).value,
                 if CodeOf(Lookup(chain, c.info).value.reference).Some? then Some(AddressOf(chain, c)) else None)
  }

  /** What one request adds to the whitelist. */
  function ListedBy(chain: Chain, c: InstallConfig): seq<Addr> {
    if Lookup(chain, c.info).Some? && ShouldBeWhitelisted(c.info.id, Lookup(chain, c.info).value.reference) then
      [AddressOf(chain, c)]
    else []
  }

  function ListedByAll(chain: Chain, batch: seq<InstallConfig>): seq<Addr> {
    if batch == [] then [] else ListedBy(chain, batch[0]) + ListedByAll(chain, batch[1..])
  }

  lemma {:induction false} ResolveAllIff(chain: Chain, batch: seq<InstallConfig>)
    ensures ResolveAll(chain, batch).Some? <==> forall c :: c in batch ==> Lookup(chain, c.info).Some?
    decreases batch
  {
    if batch != [] {
      ResolveAllIff(chain, batch[1..]);
      assert forall c :: c in batch <==> c == batch[0] || c in batch[1..];
    }
  }

  lemma {:induction false} SaveAddressesIff(modules: map<ModuleId, Addr>, add: seq<(ModuleId, Addr)>)
    ensures SaveAddresses(modules, add).Ok? <==> forall i :: 0 <= i < |add| ==> add[i].0 != ""
    decreases add
  {
    if add != [] {
      SaveAddressesIff(modules[add[0].0 := add[0].1], add[1..]);
      assert forall i :: 0 < i < |add| ==> add[i] == add[1..][i - 1];
    }
  }

  /** Modules of a batch, request by request. */
  ghost predicate Resolved(chain: Chain, batch: seq<InstallConfig>, ms: seq<Module>) {
    |ms| == |batch| && forall i :: 0 <= i < |batch| ==> Lookup(chain, batch[i].info) == Some(ms[i])
  }

  lemma {:induction false} PlanIff(modules: map<ModuleId, Addr>, chain: Chain, w: World, ms: seq<Module>,
                                   batch: seq<InstallConfig>, plan: Plan)
    requires |ms| == |batch|
    ensures PlanFrom(modules, chain, w, ms, batch, plan).Ok? <==>
            forall i :: 0 <= i < |batch| ==> Place(modules, chain, w, ms[i], batch[i].hasInitMsg).Ok?
    decreases |ms|
  {
    if ms != [] {
      var place := Place(modules, chain, w, ms[0], batch[0].hasInitMsg);
      assert forall i :: 0 < i < |batch| ==> ms[i] == ms[1..][i - 1] && batch[i] == batch[1..][i - 1];
      if place.Ok? {
        PlanIff(modules, chain, w, ms[1..], batch[1..], Extend(plan, ms[0], place.value));
      }
    }
  }

  ghost predicate Named(batch: seq<InstallConfig>) {
    forall c :: c in batch ==> c.info.id != ""
  }

  /** The whitelist vector of the plan, request by request. */
  lemma {:induction false} PlanLists(modules: map<ModuleId, Addr>, chain: Chain, w: World, ms: seq<Module>,
                                     batch: seq<InstallConfig>, plan: Plan)
    requires Resolved(chain, batch, ms) && Named(batch) && PlanFrom(modules, chain, w, ms, batch, plan).Ok?
    ensures PlanFrom(modules, chain, w, ms, batch, plan).value.whitelist
            == plan.whitelist + ListedByAll(chain, batch)
    decreases |ms|
  {
    if ms == [] {
      assert plan.whitelist + [] == plan.whitelist;
    } else {
      var place := Place(modules, chain, w, ms[0], batch[0].hasInitMsg).value;
      var next := Extend(plan, ms[0], place);
      ResolvedTail(chain, batch, ms);
      PlanLists(modules, chain, w, ms[1..], batch[1..], next);
      ExtendLists(modules, chain, w, ms[0], batch[0], plan);
      Associative(plan.whitelist, ListedBy(chain, batch[0]), ListedByAll(chain, batch[1..]));
    }
  }

  lemma ExtendLists(modules: map<ModuleId, Addr>, chain: Chain, w: World, m: Module, c: InstallConfig, plan: Plan)
    requires Lookup(chain, c.info) == Some(m) && c.info.id != "" && Place(modules, chain, w, m, c.hasInitMsg).Ok?
    ensures Extend(plan, m, Place(modules, chain, w, m, c.hasInitMsg).value).whitelist
            == plan.whitelist + ListedBy(chain, c)
  {
    assert Installable(modules, chain, w, c) && m.id == c.info.id;
  }

  lemma Associative(a: seq<Addr>, b: seq<Addr>, c: seq<Addr>)
    ensures (a + b) + c == a + (b + c)
  {}

  lemma ResolvedTail(chain: Chain, batch: seq<InstallConfig>, ms: seq<Module>)
    requires Resolved(chain, batch, ms) && batch != []
    ensures Resolved(chain, batch[1..], ms[1..]) && Lookup(chain, batch[0].info) == Some(ms[0])
    ensures batch[0] in batch && forall c :: c in batch[1..] ==> c in batch
  {
    forall i | 0 <= i < |batch[1..]|
      ensures Lookup(chain, batch[1..][i].info) == Some(ms[1..][i])
    {
      assert Lookup(chain, batch[i + 1].info) == Some(ms[i + 1]);
    }
  }

  /** The first phase succeeds exactly when every request is installable and the whitelist takes what they add. */
  lemma InstallOkIff(st: Storage, chain: Chain, w: World, batch: seq<InstallConfig>)
    requires NoDup(st.whitelist)
    ensures InstallModules(st, chain, w, batch).Ok? <==>
            && (forall c :: c in batch ==> Installable(st.modules, chain, w, c))
            && AcceptableUpdate(st.whitelist, ListedByAll(chain, batch), [])
  {
    ResolveAllIff(chain, batch);
    if ResolveAll(chain, batch).Some? {
      var ms := ResolveAll(chain, batch).value;
      ResolveAllIds(chain, batch);
      PlanIff(st.modules, chain, w, ms, batch, EMPTY_PLAN);
      PlacesIff(st.modules, chain, w, ms, batch);
      if PlanFrom(st.modules, chain, w, ms, batch, EMPTY_PLAN).Ok? {
        PlannedOkIff(st, chain, w, batch, ms);
      }
    } else {
      assert InstallModules(st, chain, w, batch).Err?;
    }
  }

  /** The same, once the batch is resolved and planned. */
  lemma PlannedOkIff(st: Storage, chain: Chain, w: World, batch: seq<InstallConfig>, ms: seq<Module>)
    requires NoDup(st.whitelist) && ResolveAll(chain, batch) == Some(ms) && Resolved(chain, batch, ms)
    requires PlanFrom(st.modules, chain, w, ms, batch, EMPTY_PLAN).Ok?
    ensures InstallModules(st, chain, w, batch).Ok? <==>
            Named(batch) && AcceptableUpdate(st.whitelist, ListedByAll(chain, batch), [])
  {
    var plan := PlanFrom(st.modules, chain, w, ms, batch, EMPTY_PLAN).value;
    var listed := ListedByAll(chain, batch);
    PlanEffect(st.modules, chain, w, ms, batch);
    SaveAddressesIff(st.modules, plan.account);
    NamesIff(batch, ms, plan.account, chain);
    if Named(batch) {
      PlanLists(st.modules, chain, w, ms, batch, EMPTY_PLAN);
      assert [] + listed == listed;
      UpdateWhitelistIff(st.whitelist, listed, []);
    }
  }

  lemma PlacesIff(modules: map<ModuleId, Addr>, chain: Chain, w: World, ms: seq<Module>, batch: seq<InstallConfig>)
    requires Resolved(chain, batch, ms)
    ensures (forall c :: c in batch ==> Installable(modules, chain, w, c)) <==>
            && (forall i :: 0 <= i < |batch| ==> Place(modules, chain, w, ms[i], batch[i].hasInitMsg).Ok?)
            && Named(batch)
  {
    if forall c :: c in batch ==> Installable(modules, chain, w, c) {
      forall i | 0 <= i < |batch|
        ensures Place(modules, chain, w, ms[i], batch[i].hasInitMsg).Ok?
      {
        assert Installable(modules, chain, w, batch[i]);
      }
    }
  }

  lemma NamesIff(batch: seq<InstallConfig>, ms: seq<Module>, account: seq<(ModuleId, Addr)>, chain: Chain)
    requires Resolved(chain, batch, ms) && |account| == |batch|
    requires forall i :: 0 <= i < |batch| ==> account[i].0 == ms[i].id
    ensures Named(batch) <==> forall i :: 0 <= i < |account| ==> account[i].0 != ""
  {
    forall i | 0 <= i < |batch|
      ensures account[i].0 == batch[i].info.id
    {
      assert Lookup(chain, batch[i].info) == Some(ms[i]);
    }
    if forall i :: 0 <= i < |account| ==> account[i].0 != "" {
      forall c | c in batch
        ensures c.info.id != ""
      {
        var i :| 0 <= i < |batch| && batch[i] == c;
        assert account[i].0 != "";
      }
    }
  }

  /** What a successful first phase has done with each request of a batch with distinct ids. */
  ghost predicate Done(st: Storage, chain: Chain, w: World, pending: Storage, c: InstallConfig) {
    && Installable(st.modules, chain, w, c)
    && c.info.id in pending.modules && pending.modules[c.info.id] == AddressOf(chain, c)
    && EntryOf(chain, c) in pending.installContext
  }

  lemma InstallDone(st: Storage, chain: Chain, w: World, batch: seq<InstallConfig>)
    requires NoDup(st.whitelist) && DistinctBatch(batch) && InstallModules(st, chain, w, batch).Ok?
    ensures var pending := InstallModules(st, chain, w, batch).value;
            && (forall c :: c in batch ==> Done(st, chain, w, pending, c))
            && (forall e :: e in pending.installContext ==>
                  exists c :: c in batch && Installable(st.modules, chain, w, c) && e == EntryOf(chain, c))
  {
    var pending := InstallModules(st, chain, w, batch).value;
    var context := pending.installContext;
    forall c | c in batch
      ensures Done(st, chain, w, pending, c)
    {
      var i :| 0 <= i < |batch| && batch[i] == c;
      EntryDone(st, chain, w, batch, i);
    }
    InstallModulesEffect(st, chain, w, batch);
    forall e | e in context
      ensures exists c :: c in batch && Installable(st.modules, chain, w, c) && e == EntryOf(chain, c)
    {
      var i :| 0 <= i < |context| && context[i] == e;
      EntryDone(st, chain, w, batch, i);
      assert batch[i] in batch;
    }
  }

  ghost predicate AskedFor(batch: seq<InstallConfig>, m: ModuleId) {
    exists c :: c in batch && c.info.id == m
  }

  /** The modules after the first phase are those from before and those of the batch. */
  lemma ModulesDone(st: Storage, chain: Chain, w: World, batch: seq<InstallConfig>, m: ModuleId)
    requires InstallModules(st, chain, w, batch).Ok?
    ensures var pending := InstallModules(st, chain, w, batch).value;
            && (m in pending.modules <==> m in st.modules || AskedFor(batch, m))
            && (m in st.modules ==> pending.modules[m] == st.modules[m])
  {
    InstallModulesEffect(st, chain, w, batch);
    ContextAsked(chain, batch, InstallModules(st, chain, w, batch).value.installContext, m);
  }

  lemma ContextAsked(chain: Chain, batch: seq<InstallConfig>, context: seq<InstallEntry>, m: ModuleId)
    requires |context| == |batch|
    requires forall i :: 0 <= i < |batch| ==> Lookup(chain, batch[i].info) == Some(context[i].m)
    ensures m in ContextIds(context) <==> AskedFor(batch, m)
  {
    if m in ContextIds(context) {
      var i :| 0 <= i < |context| && context[i].m.id == m;
      assert Lookup(chain, batch[i].info) == Some(context[i].m) && batch[i] in batch;
    }
    if AskedFor(batch, m) {
      var c :| c in batch && c.info.id == m;
      var i :| 0 <= i < |batch| && batch[i] == c;
      assert Lookup(chain, batch[i].info) == Some(context[i].m);
      ContextIdsMember(context, context[i]);
    }
  }

  lemma EntryDone(st: Storage, chain: Chain, w: World, batch: seq<InstallConfig>, i: nat)
    requires NoDup(st.whitelist) && DistinctBatch(batch) && InstallModules(st, chain, w, batch).Ok? && i < |batch|
    ensures var pending := InstallModules(st, chain, w, batch).value;
            && |pending.installContext| == |batch|
            && Installable(st.modules, chain, w, batch[i])
            && pending.installContext[i] == EntryOf(chain, batch[i])
            && EntryOf(chain, batch[i]) in pending.installContext
            && batch[i].info.id in pending.modules
            && pending.modules[batch[i].info.id] == AddressOf(chain, batch[i])
  {
    InstallOkIff(st, chain, w, batch);
    var ms, plan := InstallPlan(st, chain, w, batch);
    ResolveAllIds(chain, batch);
    PlanEffect(st.modules, chain, w, ms, batch);
    assert Installable(st.modules, chain, w, batch[i]);
    PlaceIff(st.modules, chain, w, ms[i], batch[i].hasInitMsg);
    forall j | i < j < |batch|
      ensures plan.account[j].0 != plan.account[i].0
    {
      assert Lookup(chain, batch[i].info) == Some(ms[i]) && Lookup(chain, batch[j].info) == Some(ms[j]);
      assert batch[i].info.id != batch[j].info.id;
    }
    SavedLast(st.modules, plan.account, i);
    assert plan.context[i] in plan.context;
  }

  /** An address whose id does not come again is the one that is saved. */
  lemma SavedLast(modules: map<ModuleId, Addr>, account: seq<(ModuleId, Addr)>, i: nat)
    requires i < |account| && SaveAddresses(modules, account).Ok?
    requires forall j :: i < j < |account| ==> account[j].0 != account[i].0
    ensures account[i].0 in SaveAddresses(modules, account).value
    ensures SaveAddresses(modules, account).value[account[i].0] == account[i].1
  {
    SaveAddressesEffect(modules, account);
    assert !Saves(account[i + 1..], account[i].0);
  }

  // ------------------------------------------------------------------ what an install leaves behind

  /** After an install every module of the batch is genuine at the address the account uses for it. */
  lemma InstalledIsGenuine(s: Sys, chain: Chain, batch: seq<InstallConfig>, after: World, c: InstallConfig)
    requires NoDup(s.st.whitelist) && DistinctBatch(batch) && Completes(s, chain, batch, after) && c in batch
    ensures var t := Step(s, Install(chain, batch, after));
            && Lookup(chain, c.info).Some? && c.info.id in t.st.modules
            && t.st.modules[c.info.id] == AddressOf(chain, c)
            && Genuine(after, Lookup(chain, c.info).value, t.st.modules[c.info.id])
  {
    InstallDone(s.st, chain, s.w, batch);
    var pending := InstallModules(s.st, chain, s.w, batch).value;
    assert Done(s.st, chain, s.w, pending, c);
    RegisterFromExact(pending.modules, pending.dependents, after, pending.installContext);
    assert EntryAccepted(pending.modules, after, EntryOf(chain, c));
  }

  /** Installing a native appends its address to the whitelist if it is the IBC client, and otherwise nothing. */
  lemma NativeListing(st: Storage, chain: Chain, w: World, c: InstallConfig, a: Addr)
    requires NoDup(st.whitelist) && InstallModules(st, chain, w, [c]).Ok?
    requires Lookup(chain, c.info).Some? && Lookup(chain, c.info).value.reference == Native(a)
    ensures InstallModules(st, chain, w, [c]).value.whitelist
            == st.whitelist + (if c.info.id == "abstract:ibc-client" then [a] else [])
  {
    WhitelistAfter(st, chain, w, [c]);
    ListedKinds(c.info.id, Native(a));
    assert [c][1..] == [] && ListedBy(chain, c) + [] == ListedBy(chain, c);
  }

  // ------------------------------------------------------------------ permutations

  lemma {:induction false} ListedConcat(chain: Chain, a: seq<InstallConfig>,
                                        b: seq<InstallConfig>)
    ensures ListedByAll(chain, a + b) == ListedByAll(chain, a) + ListedByAll(chain, b)
    decreases a
  {
    if a == [] {
      assert a + b == b;
    } else {
      assert (a + b)[1..] == a[1..] + b;
      ListedConcat(chain, a[1..], b);
    }
  }

  /** A permutation of a batch adds a permutation of the addresses. */
  lemma {:induction false} ListedPermuted(chain: Chain, batch: seq<InstallConfig>,
                                          shuffled: seq<InstallConfig>)
    requires multiset(batch) == multiset(shuffled)
    ensures multiset(ListedByAll(chain, batch)) == multiset(ListedByAll(chain, shuffled))
    decreases |batch|
  {
    if batch == [] {
      assert |multiset(shuffled)| == |shuffled|;
    } else {
      var c, rest := batch[0], batch[1..];
      assert batch == [c] + rest;
      assert c in multiset(shuffled);
      var i :| 0 <= i < |shuffled| && shuffled[i] == c;
      var left, right := shuffled[..i], shuffled[i + 1..];
      assert shuffled == left + ([c] + right);
      Removed(batch, c, rest, left, right);
      ListedPermuted(chain, rest, left + right);
      ListedOut(chain, left, c, right);
    }
  }

  lemma Removed(batch: seq<InstallConfig>, c: InstallConfig, rest: seq<InstallConfig>, left: seq<InstallConfig>,
                right: seq<InstallConfig>)
    requires batch == [c] + rest && multiset(batch) == multiset(left + ([c] + right))
    ensures multiset(rest) == multiset(left + right)
  {
    assert multiset(batch) == multiset{c} + multiset(rest);
    assert multiset(left + ([c] + right)) == multiset(left) + (multiset{c} + multiset(right));
    assert multiset(left + right) == multiset(left) + multiset(right);
    CancelOne(multiset(rest), multiset(left), multiset(right), c);
  }

  lemma CancelOne(a: multiset<InstallConfig>, b: multiset<InstallConfig>, d: multiset<InstallConfig>, c: InstallConfig)
    requires multiset{c} + a == b + (multiset{c} + d)
    ensures a == b + d
  {
    assert multiset{c} + a == multiset{c} + (b + d);
    assert (multiset{c} + a) - multiset{c} == a;
    assert (multiset{c} + (b + d)) - multiset{c} == b + d;
  }

  /** Where a request stands in a batch does not matter to the addresses added. */
  lemma ListedOut(chain: Chain, left: seq<InstallConfig>, c: InstallConfig,
                  right: seq<InstallConfig>)
    ensures multiset(ListedByAll(chain, left + ([c] + right)))
            == multiset(ListedBy(chain, c)) + multiset(ListedByAll(chain, left + right))
  {
    ListedConcat(chain, left, right);
    ListedConcat(chain, left, [c] + right);
    assert ([c] + right)[1..] == right;
    assert ListedByAll(chain, [c] + right) == ListedBy(chain, c) + ListedByAll(chain, right);
  }

  lemma NoDupPermuted(a: seq<Addr>, b: seq<Addr>)
    requires multiset(a) == multiset(b) && NoDup(a)
    ensures NoDup(b)
  {
    NoDupSetSize(a);
    SeqSetSize(b);
    forall x
      ensures x in a <==> x in b
    {
      assert x in a <==> x in multiset(a);
      assert x in b <==> x in multiset(b);
    }
    assert (set x | x in a) == (set x | x in b);
    assert |a| == |multiset(a)| && |b| == |multiset(b)|;
  }

  lemma AcceptablePermuted(list: seq<Addr>, a: seq<Addr>, b: seq<Addr>)
    requires multiset(a) == multiset(b) && AcceptableUpdate(list, a, [])
    ensures AcceptableUpdate(list, b, [])
  {
    NoDupPermuted(a, b);
    assert |a| == |multiset(a)| && |b| == |multiset(b)|;
    forall x | x in b
      ensures x !in list
    {
      assert x in multiset(a);
    }
  }

  lemma DistinctPermuted(batch: seq<InstallConfig>, shuffled: seq<InstallConfig>)
    requires multiset(batch) == multiset(shuffled) && DistinctBatch(batch)
    ensures DistinctBatch(shuffled)
    ensures forall c :: c in batch <==> c in shuffled
  {
    forall c
      ensures c in batch <==> c in shuffled
    {
      assert c in batch <==> c in multiset(batch);
      assert c in shuffled <==> c in multiset(shuffled);
    }
    forall i, j | 0 <= i < j < |shuffled|
      ensures shuffled[i].info.id != shuffled[j].info.id
    {
      var x, y := shuffled[i], shuffled[j];
      assert x in batch && y in batch;
      if x == y {
        Repeated(shuffled, i, j);
        OnlyOnce(batch, x);
      } else {
        var k :| 0 <= k < |batch| && batch[k] == x;
        var l :| 0 <= l < |batch| && batch[l] == y;
      }
    }
  }

  lemma Repeated(s: seq<InstallConfig>, i: nat, j: nat)
    requires i < j < |s| && s[i] == s[j]
    ensures multiset(s)[s[i]] >= 2
  {
    assert s == s[..j] + [s[j]] + s[j + 1..];
    assert s[i] in s[..j];
  }

  lemma {:induction false} OnlyOnce(batch: seq<InstallConfig>, c: InstallConfig)
    requires DistinctBatch(batch)
    ensures multiset(batch)[c] <= 1
    decreases |batch|
  {
    if batch != [] {
      var rest := batch[1..];
      assert batch == [batch[0]] + rest;
      assert forall i :: 0 <= i < |rest| ==> rest[i] == batch[i + 1];
      OnlyOnce(rest, c);
      if c == batch[0] {
        assert c !in rest;
      }
    }
  }

  // ------------------------------------------------------------------ the whole install

  /** Both phases go through. */
  ghost predicate Completes(s: Sys, chain: Chain, batch: seq<InstallConfig>, after: World) {
    && InstallModules(s.st, chain, s.w, batch).Ok?
    && RegisterDependencies(InstallModules(s.st, chain, s.w, batch).value, after).Ok?
  }

  lemma SamePending(s: Sys, chain: Chain, batch: seq<InstallConfig>, shuffled: seq<InstallConfig>)
    requires NoDup(s.st.whitelist) && multiset(batch) == multiset(shuffled) && DistinctBatch(batch)
    requires InstallModules(s.st, chain, s.w, batch).Ok?
    ensures InstallModules(s.st, chain, s.w, shuffled).Ok?
    ensures var pending, other := InstallModules(s.st, chain, s.w, batch).value, InstallModules(s.st, chain, s.w, shuffled).value;
            && pending.modules == other.modules
            && (forall e :: e in pending.installContext <==> e in other.installContext)
            && pending.dependents == other.dependents == s.st.dependents
  {
    var listed := ListedByAll(chain, batch);
    DistinctPermuted(batch, shuffled);
    ListedPermuted(chain, batch, shuffled);
    InstallOkIff(s.st, chain, s.w, batch);
    InstallOkIff(s.st, chain, s.w, shuffled);
    AcceptablePermuted(s.st.whitelist, listed, ListedByAll(chain, shuffled));
    InstallModulesEffect(s.st, chain, s.w, batch);
    InstallModulesEffect(s.st, chain, s.w, shuffled);
    SameModules(s.st, chain, s.w, batch, shuffled);
    SameEntries(s.st, chain, s.w, batch, shuffled);
    SameEntries(s.st, chain, s.w, shuffled, batch);
  }

  lemma SameEntries(st: Storage, chain: Chain, w: World, batch: seq<InstallConfig>, shuffled: seq<InstallConfig>)
    requires NoDup(st.whitelist) && DistinctBatch(batch) && DistinctBatch(shuffled)
    requires forall c :: c in batch <==> c in shuffled
    requires InstallModules(st, chain, w, batch).Ok? && InstallModules(st, chain, w, shuffled).Ok?
    ensures forall e :: e in InstallModules(st, chain, w, batch).value.installContext ==>
              e in InstallModules(st, chain, w, shuffled).value.installContext
  {
    InstallDone(st, chain, w, batch);
    InstallDone(st, chain, w, shuffled);
  }

  lemma SameModules(st: Storage, chain: Chain, w: World, batch: seq<InstallConfig>, shuffled: seq<InstallConfig>)
    requires NoDup(st.whitelist) && DistinctBatch(batch) && DistinctBatch(shuffled)
    requires forall c :: c in batch <==> c in shuffled
    requires InstallModules(st, chain, w, batch).Ok? && InstallModules(st, chain, w, shuffled).Ok?
    ensures InstallModules(st, chain, w, batch).value.modules == InstallModules(st, chain, w, shuffled).value.modules
  {
    InstallDone(st, chain, w, batch);
    InstallDone(st, chain, w, shuffled);
    var pending, other := InstallModules(st, chain, w, batch).value, InstallModules(st, chain, w, shuffled).value;
    forall m
      ensures m in pending.modules <==> m in other.modules
      ensures m in pending.modules ==> pending.modules[m] == other.modules[m]
    {
      ModulesDone(st, chain, w, batch, m);
      ModulesDone(st, chain, w, shuffled, m);
      if m in pending.modules && m !in st.modules {
        assert AskedFor(batch, m);
        var c :| c in batch && c.info.id == m;
        assert Done(st, chain, w, pending, c) && Done(st, chain, w, other, c);
      }
    }
  }

  /** Entries with the same id are the same entry. */
  ghost predicate ById(context: seq<InstallEntry>) {
    forall e, f :: e in context && f in context && e.m.id == f.m.id ==> e == f
  }

  lemma KindById(kinds: map<ModuleId, ModuleReference>, context: seq<InstallEntry>, m: ModuleId) returns (e: InstallEntry)
    requires ById(context) && m in ContextIds(context)
    ensures e in context && e.m.id == m
    ensures m in RecordKinds(kinds, context) && RecordKinds(kinds, context)[m] == e.m.reference
  {
    RecordKindsEffect(kinds, context);
    e :| e in context && e.m.id == m && RecordKinds(kinds, context)[m] == e.m.reference;
  }

  /** The kinds recorded for such a context depend on its entries only. */
  lemma SameKinds(kinds: map<ModuleId, ModuleReference>, a: seq<InstallEntry>, b: seq<InstallEntry>)
    requires ById(a) && ById(b) && forall e :: e in a <==> e in b
    ensures RecordKinds(kinds, a) == RecordKinds(kinds, b)
  {
    var r, t := RecordKinds(kinds, a), RecordKinds(kinds, b);
    forall m
      ensures m in r <==> m in t
      ensures m in r ==> r[m] == t[m]
    {
      KindAlike(kinds, a, b, m);
    }
  }

  lemma KindAlike(kinds: map<ModuleId, ModuleReference>, a: seq<InstallEntry>, b: seq<InstallEntry>, m: ModuleId)
    requires ById(a) && ById(b) && forall e :: e in a <==> e in b
    ensures m in RecordKinds(kinds, a) <==> m in RecordKinds(kinds, b)
    ensures m in RecordKinds(kinds, a) ==> RecordKinds(kinds, a)[m] == RecordKinds(kinds, b)[m]
  {
    RecordKindsEffect(kinds, a);
    RecordKindsEffect(kinds, b);
    if m in ContextIds(a) {
      SameIds(a, b, m);
      var e := KindById(kinds, a, m);
      var f := KindById(kinds, b, m);
    } else if m in ContextIds(b) {
      SameIds(b, a, m);
      assert false;
    }
  }

  lemma SameIds(a: seq<InstallEntry>, b: seq<InstallEntry>, m: ModuleId)
    requires forall e :: e in a ==> e in b
    requires m in ContextIds(a)
    ensures m in ContextIds(b)
  {
    var i :| 0 <= i < |a| && a[i].m.id == m;
    ContextIdsMember(b, a[i]);
  }

  lemma EntriesById(st: Storage, chain: Chain, w: World, batch: seq<InstallConfig>)
    requires DistinctBatch(batch) && InstallModules(st, chain, w, batch).Ok?
    ensures ById(InstallModules(st, chain, w, batch).value.installContext)
  {
    InstallModulesEffect(st, chain, w, batch);
    ContextById(chain, batch, InstallModules(st, chain, w, batch).value.installContext);
  }

  lemma ContextById(chain: Chain, batch: seq<InstallConfig>, context: seq<InstallEntry>)
    requires DistinctBatch(batch) && |context| == |batch|
    requires forall i :: 0 <= i < |batch| ==> Lookup(chain, batch[i].info) == Some(context[i].m)
    ensures ById(context)
  {
    forall e, f | e in context && f in context && e.m.id == f.m.id
      ensures e == f
    {
      var i :| 0 <= i < |context| && context[i] == e;
      var j :| 0 <= j < |context| && context[j] == f;
      assert Lookup(chain, batch[i].info) == Some(e.m) && Lookup(chain, batch[j].info) == Some(f.m);
    }
  }

  /** The whitelist after a successful first phase. */
  lemma WhitelistAfter(st: Storage, chain: Chain, w: World, batch: seq<InstallConfig>)
    requires NoDup(st.whitelist) && InstallModules(st, chain, w, batch).Ok?
    ensures InstallModules(st, chain, w, batch).value.whitelist == st.whitelist + ListedByAll(chain, batch)
  {
    InstallOkIff(st, chain, w, batch);
    var ms, plan := InstallPlan(st, chain, w, batch);
    ResolveAllIds(chain, batch);
    assert Named(batch) by {
      assert forall c :: c in batch ==> Installable(st.modules, chain, w, c);
    }
    PlanLists(st.modules, chain, w, ms, batch, EMPTY_PLAN);
    var listed := ListedByAll(chain, batch);
    assert [] + listed == listed;
    UpdateWhitelistIff(st.whitelist, listed, []);
    FilterAll(st.whitelist + listed, a => a !in []);
  }

  /**
   Every order of a batch that asks for each module once is accepted or refused alike. The modules, their kinds and the
   index are then the same, and the whitelist holds the same addresses.
   */
  lemma InstallOrderIrrelevant(s: Sys, chain: Chain, batch: seq<InstallConfig>, shuffled: seq<InstallConfig>, after: World)
    requires NoDup(s.st.whitelist) && multiset(batch) == multiset(shuffled) && DistinctBatch(batch)
    ensures Completes(s, chain, batch, after) <==> Completes(s, chain, shuffled, after)
    ensures var t, u := Step(s, Install(chain, batch, after)), Step(s, Install(chain, shuffled, after));
            && t.st.modules == u.st.modules && t.kinds == u.kinds && t.w == u.w
            && t.st.dependents == u.st.dependents
            && multiset(t.st.whitelist) == multiset(u.st.whitelist)
  {
    DistinctPermuted(batch, shuffled);
    if InstallModules(s.st, chain, s.w, shuffled).Ok? {
      SamePending(s, chain, shuffled, batch);
    }
    if InstallModules(s.st, chain, s.w, batch).Ok? {
      SamePending(s, chain, batch, shuffled);
      var pending, other := InstallModules(s.st, chain, s.w, batch).value, InstallModules(s.st, chain, s.w, shuffled).value;
      RegisterOrderIrrelevant(pending.modules, s.st.dependents, after, pending.installContext, other.installContext);
      EntriesById(s.st, chain, s.w, batch);
      EntriesById(s.st, chain, s.w, shuffled);
      SameKinds(s.kinds, pending.installContext, other.installContext);
      WhitelistAfter(s.st, chain, s.w, batch);
      WhitelistAfter(s.st, chain, s.w, shuffled);
      ListedPermuted(chain, batch, shuffled);
    }
  }
}
