/**
 The whitelist against the modules. Along runs of installs, uninstalls and upgrades the whitelist holds
 exactly the addresses of the installed modules that are meant to act for the account, one each.
 */
module ModuleWhitelist {
  import opened Basics
  import opened Cosmos
  import opened ModuleTypes
  import opened Whitelist
  import opened ModuleManager
  import opened ModuleRuns
  import opened ModuleUpgrades
  import opened ModuleHistory

  /** m is installed and of a kind that belongs on the whitelist. */
  ghost predicate Acts(modules: map<ModuleId, Addr>, kinds: map<ModuleId, ModuleReference>, m: ModuleId) {
    m in modules && m in kinds && ShouldBeWhitelisted(m, kinds[m])
  }

  /** Whitelist and acting modules are in bijection through the modules' addresses. */
  ghost predicate Corresponds(modules: map<ModuleId, Addr>, kinds: map<ModuleId, ModuleReference>, list: seq<Addr>) {
    && NoDup(list)
    && (forall m :: Acts(modules, kinds, m) ==> modules[m] in list)
    && (forall a :: a in list ==> exists m :: Acts(modules, kinds, m) && modules[m] == a)
    && (forall m, n :: Acts(modules, kinds, m) && Acts(modules, kinds, n) && modules[m] == modules[n] ==> m == n)
  }

  ghost predicate WhitelistMatches(s: Sys) {
    Corresponds(s.st.modules, s.kinds, s.st.whitelist) && |s.st.whitelist| <= WHITELIST_SIZE_LIMIT
  }

  // ------------------------------------------------------------------ install

  /** The addresses a batch adds to the whitelist, in order. */
  function Listed(account: seq<(ModuleId, Addr)>, context: seq<InstallEntry>): seq<Addr>
    requires |account| == |context|
    decreases |account|
  {
    if account == [] then []
    else if ShouldBeWhitelisted(context[0].m.id, context[0].m.reference) then
      [account[0].1] + Listed(account[1..], context[1..])
    else Listed(account[1..], context[1..])
  }

  lemma {:induction false} ListedConcat(a: seq<(ModuleId, Addr)>, b: seq<(ModuleId, Addr)>,
                                        c: seq<InstallEntry>, d: seq<InstallEntry>)
    requires |a| == |c| && |b| == |d|
    ensures Listed(a + b, c + d) == Listed(a, c) + Listed(b, d)
    decreases |a|
  {
    if a == [] {
      assert a + b == b && c + d == d;
    } else {
      assert (a + b)[1..] == a[1..] + b && (c + d)[1..] == c[1..] + d;
      ListedConcat(a[1..], b, c[1..], d);
    }
  }

  lemma {:induction false} PlanWhitelist(modules: map<ModuleId, Addr>, chain: Chain, w: World, ms: seq<Module>,
                                         batch: seq<InstallConfig>, plan: Plan)
    requires |ms| == |batch| && |plan.account| == |plan.context|
    requires plan.whitelist == Listed(plan.account, plan.context)
    requires PlanFrom(modules, chain, w, ms, batch, plan).Ok?
    ensures var p := PlanFrom(modules, chain, w, ms, batch, plan).value;
            |p.account| == |p.context| && p.whitelist == Listed(p.account, p.context)
    decreases |ms|
  {
    if ms != [] {
      var place := Place(modules, chain, w, ms[0], batch[0].hasInitMsg).value;
      var next := Extend(plan, ms[0], place);
      ListedConcat(plan.account, [(ms[0].id, place.addr)], plan.context, [InstallEntry(ms[0], place.context)]);
      assert [(ms[0].id, place.addr)][1..] == [] && [InstallEntry(ms[0], place.context)][1..] == [];
      PlanWhitelist(modules, chain, w, ms[1..], batch[1..], next);
    }
  }

  /** Entry i of the batch is one that the whitelist receives. */
  predicate ActingEntry(context: seq<InstallEntry>, i: nat) {
    i < |context| && ShouldBeWhitelisted(context[i].m.id, context[i].m.reference)
  }

  /** Listed addresses come from acting entries, and distinct addresses mean distinct entries. */
  lemma {:induction false} ListedMembers(account: seq<(ModuleId, Addr)>, context: seq<InstallEntry>)
    requires |account| == |context|
    ensures forall i :: 0 <= i < |account| && ActingEntry(context, i) ==> account[i].1 in Listed(account, context)
    ensures forall a :: a in Listed(account, context) ==>
              exists i :: 0 <= i < |account| && ActingEntry(context, i) && account[i].1 == a
    ensures NoDup(Listed(account, context)) ==>
              forall i, j :: 0 <= i < j < |account| && ActingEntry(context, i) && ActingEntry(context, j) ==>
                account[i].1 != account[j].1
    decreases |account|
  {
    if account != [] {
      ListedMembers(account[1..], context[1..]);
      var rest := Listed(account[1..], context[1..]);
      var all := Listed(account, context);
      assert forall i :: 0 < i < |account| ==>
          account[i] == account[1..][i - 1] && (ActingEntry(context, i) <==> ActingEntry(context[1..], i - 1));
      forall a | a in all
        ensures exists i :: 0 <= i < |account| && ActingEntry(context, i) && account[i].1 == a
      {
        if a in rest {
          var i :| 0 <= i < |account[1..]| && ActingEntry(context[1..], i) && account[1..][i].1 == a;
          assert ActingEntry(context, i + 1) && account[i + 1].1 == a;
        } else {
          assert ActingEntry(context, 0) && account[0].1 == a;
        }
      }
      if NoDup(all) {
        assert rest == if ActingEntry(context, 0) then all[1..] else all;
        forall i, j | 0 <= i < j < |account| && ActingEntry(context, i) && ActingEntry(context, j)
          ensures account[i].1 != account[j].1
        {
          assert account[j].1 in rest;
          if i == 0 {
            assert all[0] == account[0].1;
          }
        }
      }
    }
  }

  /** No entry meant for the whitelist is overwritten by a later entry of the batch with the same id. */
  ghost predicate NoActingOverwritten(context: seq<InstallEntry>) {
    forall i :: 0 <= i < |context| && ActingEntry(context, i) ==> context[i].m.id !in ContextIds(context[i + 1..])
  }

  /** The maps after a batch, described by the last entry for each id. */
  ghost predicate BatchSaved(modules: map<ModuleId, Addr>, kinds: map<ModuleId, ModuleReference>,
                             modules2: map<ModuleId, Addr>, kinds2: map<ModuleId, ModuleReference>,
                             account: seq<(ModuleId, Addr)>, context: seq<InstallEntry>)
  {
    && |account| == |context|
    && (forall i :: 0 <= i < |context| ==> account[i].0 == context[i].m.id)
    && ContextIds(context) !! modules.Keys && kinds.Keys == modules.Keys
    && modules2.Keys == kinds2.Keys == modules.Keys + ContextIds(context)
    && (forall m :: m in modules ==> modules2[m] == modules[m] && kinds2[m] == kinds[m])
    && (forall i :: 0 <= i < |context| && context[i].m.id !in ContextIds(context[i + 1..]) ==>
          modules2[context[i].m.id] == account[i].1 && kinds2[context[i].m.id] == context[i].m.reference)
  }

  /** Every id of a batch has a last entry. */
  lemma {:induction false} LastEntry(context: seq<InstallEntry>, id: ModuleId) returns (i: nat)
    requires id in ContextIds(context)
    ensures i < |context| && context[i].m.id == id && id !in ContextIds(context[i + 1..])
    decreases context
  {
    ContextIdsHead(context);
    if id in ContextIds(context[1..]) {
      var j := LastEntry(context[1..], id);
      i := j + 1;
      assert context[i + 1..] == context[1..][j + 1..];
    } else {
      i := 0;
    }
  }

  /** Old and new acting modules after a batch whose additions to the whitelist were accepted. */
  lemma SavedModule(modules: map<ModuleId, Addr>, kinds: map<ModuleId, ModuleReference>,
                    modules2: map<ModuleId, Addr>, kinds2: map<ModuleId, ModuleReference>,
                    account: seq<(ModuleId, Addr)>, context: seq<InstallEntry>, m: ModuleId)
    requires BatchSaved(modules, kinds, modules2, kinds2, account, context)
    ensures m in modules ==> (Acts(modules2, kinds2, m) <==> Acts(modules, kinds, m))
    ensures m !in modules && Acts(modules2, kinds2, m) ==>
              exists i :: 0 <= i < |context| && ActingEntry(context, i) && context[i].m.id == m && modules2[m] == account[i].1
  {
    if m !in modules && Acts(modules2, kinds2, m) {
      var i := LastEntry(context, m);
      assert ActingEntry(context, i);
    }
  }

  /** Acting modules after the batch have distinct addresses, all of them on the extended list. */
  lemma BatchInjective(modules: map<ModuleId, Addr>, kinds: map<ModuleId, ModuleReference>, list: seq<Addr>,
                       modules2: map<ModuleId, Addr>, kinds2: map<ModuleId, ModuleReference>,
                       account: seq<(ModuleId, Addr)>, context: seq<InstallEntry>, m: ModuleId, n: ModuleId)
    requires Corresponds(modules, kinds, list)
    requires BatchSaved(modules, kinds, modules2, kinds2, account, context)
    requires NoDup(list + Listed(account, context))
    requires Acts(modules2, kinds2, m) && Acts(modules2, kinds2, n)
    ensures modules2[m] in list || modules2[m] in Listed(account, context)
    ensures modules2[m] == modules2[n] ==> m == n
  {
    ListedMembers(account, context);
    NoDupConcat(list, Listed(account, context));
    SavedModule(modules, kinds, modules2, kinds2, account, context, m);
    SavedModule(modules, kinds, modules2, kinds2, account, context, n);
    if m !in modules && n !in modules && modules2[m] == modules2[n] {
      var i :| 0 <= i < |context| && ActingEntry(context, i) && context[i].m.id == m && modules2[m] == account[i].1;
      var j :| 0 <= j < |context| && ActingEntry(context, j) && context[j].m.id == n && modules2[n] == account[j].1;
      assert i == j;
    }
  }

  /** Every address of the extended list belongs to an acting module exactly when no acting entry is overwritten. */
  lemma BatchCovered(modules: map<ModuleId, Addr>, kinds: map<ModuleId, ModuleReference>, list: seq<Addr>,
                     modules2: map<ModuleId, Addr>, kinds2: map<ModuleId, ModuleReference>,
                     account: seq<(ModuleId, Addr)>, context: seq<InstallEntry>)
    requires Corresponds(modules, kinds, list)
    requires BatchSaved(modules, kinds, modules2, kinds2, account, context)
    requires NoDup(list + Listed(account, context))
    ensures (forall a :: a in list + Listed(account, context) ==> exists m :: Acts(modules2, kinds2, m) && modules2[m] == a)
            <==> NoActingOverwritten(context)
  {
    ListedMembers(account, context);
    forall i | 0 <= i < |context| && ActingEntry(context, i)
      ensures account[i].1 in list + Listed(account, context)
      ensures (exists m :: Acts(modules2, kinds2, m) && modules2[m] == account[i].1)
              <==> context[i].m.id !in ContextIds(context[i + 1..])
    {
      EntryCovered(modules, kinds, list, modules2, kinds2, account, context, i);
    }
    StoredCovered(modules, kinds, list, modules2, kinds2, account, context);
    if NoActingOverwritten(context) {
      forall a | a in Listed(account, context)
        ensures exists m :: Acts(modules2, kinds2, m) && modules2[m] == a
      {
        var i :| 0 <= i < |account| && ActingEntry(context, i) && account[i].1 == a;
      }
    }
  }

  /** Addresses listed before the batch still belong to their modules. */
  lemma StoredCovered(modules: map<ModuleId, Addr>, kinds: map<ModuleId, ModuleReference>, list: seq<Addr>,
                      modules2: map<ModuleId, Addr>, kinds2: map<ModuleId, ModuleReference>,
                      account: seq<(ModuleId, Addr)>, context: seq<InstallEntry>)
    requires Corresponds(modules, kinds, list)
    requires BatchSaved(modules, kinds, modules2, kinds2, account, context)
    ensures forall a :: a in list ==> exists m :: Acts(modules2, kinds2, m) && modules2[m] == a
  {
    forall a | a in list
      ensures exists m :: Acts(modules2, kinds2, m) && modules2[m] == a
    {
      var m :| Acts(modules, kinds, m) && modules[m] == a;
      assert Acts(modules2, kinds2, m) && modules2[m] == a;
    }
  }

  /** After a batch the bijection holds if and only if no acting entry was overwritten. */
  lemma BatchMatchesIff(modules: map<ModuleId, Addr>, kinds: map<ModuleId, ModuleReference>, list: seq<Addr>,
                        modules2: map<ModuleId, Addr>, kinds2: map<ModuleId, ModuleReference>,
                        account: seq<(ModuleId, Addr)>, context: seq<InstallEntry>)
    requires Corresponds(modules, kinds, list)
    requires BatchSaved(modules, kinds, modules2, kinds2, account, context)
    requires NoDup(list + Listed(account, context))
    ensures Corresponds(modules2, kinds2, list + Listed(account, context)) <==> NoActingOverwritten(context)
  {
    BatchCovered(modules, kinds, list, modules2, kinds2, account, context);
    forall m, n | Acts(modules2, kinds2, m) && Acts(modules2, kinds2, n)
      ensures modules2[m] in list + Listed(account, context)
      ensures modules2[m] == modules2[n] ==> m == n
    {
      BatchInjective(modules, kinds, list, modules2, kinds2, account, context, m, n);
    }
    forall m | Acts(modules2, kinds2, m)
      ensures modules2[m] in list + Listed(account, context)
    {
      BatchInjective(modules, kinds, list, modules2, kinds2, account, context, m, m);
    }
  }

  /** An acting entry's address belongs to an acting module exactly when the entry is the last for its id. */
  lemma EntryCovered(modules: map<ModuleId, Addr>, kinds: map<ModuleId, ModuleReference>, list: seq<Addr>,
                     modules2: map<ModuleId, Addr>, kinds2: map<ModuleId, ModuleReference>,
                     account: seq<(ModuleId, Addr)>, context: seq<InstallEntry>, i: nat)
    requires Corresponds(modules, kinds, list)
    requires BatchSaved(modules, kinds, modules2, kinds2, account, context)
    requires NoDup(list + Listed(account, context))
    requires i < |context| && ActingEntry(context, i)
    ensures (exists m :: Acts(modules2, kinds2, m) && modules2[m] == account[i].1)
            <==> context[i].m.id !in ContextIds(context[i + 1..])
  {
    ListedMembers(account, context);
    NoDupConcat(list, Listed(account, context));
    if context[i].m.id !in ContextIds(context[i + 1..]) {
      ContextIdsMember(context, context[i]);
      assert Acts(modules2, kinds2, context[i].m.id);
    }
    if m :| Acts(modules2, kinds2, m) && modules2[m] == account[i].1 {
      SavedModule(modules, kinds, modules2, kinds2, account, context, m);
      assert account[i].1 in Listed(account, context);
      assert m !in modules;
      var j := LastEntry(context, m);
      assert ActingEntry(context, j) && modules2[m] == account[j].1;
      assert i == j;
    }
  }

  lemma InstallSaved(s: Sys, chain: Chain, batch: seq<InstallConfig>)
    returns (account: seq<(ModuleId, Addr)>)
    requires s.kinds.Keys == s.st.modules.Keys && NoDup(s.st.whitelist)
    requires InstallModules(s.st, chain, s.w, batch).Ok?
    ensures var pending := InstallModules(s.st, chain, s.w, batch).value;
            && BatchSaved(s.st.modules, s.kinds, pending.modules, RecordKinds(s.kinds, pending.installContext),
                          account, pending.installContext)
            && pending.whitelist == s.st.whitelist + Listed(account, pending.installContext)
            && NoDup(pending.whitelist) && |pending.whitelist| <= WHITELIST_SIZE_LIMIT
  {
    var pending := InstallModules(s.st, chain, s.w, batch).value;
    InstallModulesEffect(s.st, chain, s.w, batch);
    RecordKindsEffect(s.kinds, pending.installContext);
    account := InstallAddresses(s.st, chain, s.w, batch);
  }

  /** The addresses saved by the first phase, and what it appends to the whitelist. */
  lemma InstallAddresses(st: Storage, chain: Chain, w: World, batch: seq<InstallConfig>)
    returns (account: seq<(ModuleId, Addr)>)
    requires InstallModules(st, chain, w, batch).Ok? && NoDup(st.whitelist)
    ensures var pending := InstallModules(st, chain, w, batch).value;
            && |account| == |pending.installContext|
            && (forall i :: 0 <= i < |account| ==> account[i].0 == pending.installContext[i].m.id)
            && (forall i :: 0 <= i < |account| && pending.installContext[i].m.id !in ContextIds(pending.installContext[i + 1..]) ==>
                  account[i].0 in pending.modules && pending.modules[account[i].0] == account[i].1)
            && pending.whitelist == st.whitelist + Listed(account, pending.installContext)
            && NoDup(pending.whitelist) && |pending.whitelist| <= WHITELIST_SIZE_LIMIT
  {
    var ms, plan := InstallPlan(st, chain, w, batch);
    PlanEffect(st.modules, chain, w, ms, batch);
    PlanWhitelist(st.modules, chain, w, ms, batch, EMPTY_PLAN);
    OnlyAdditions(st.whitelist, plan.whitelist);
    account := plan.account;
    LastSaved(st.modules, account, plan.context);
  }

  /** The last entry for an id decides its address. */
  lemma LastSaved(modules: map<ModuleId, Addr>, account: seq<(ModuleId, Addr)>, context: seq<InstallEntry>)
    requires |account| == |context| && SaveAddresses(modules, account).Ok?
    requires forall j :: 0 <= j < |account| ==> account[j].0 == context[j].m.id
    ensures var saved := SaveAddresses(modules, account).value;
            forall i :: 0 <= i < |account| && context[i].m.id !in ContextIds(context[i + 1..]) ==>
              account[i].0 in saved && saved[account[i].0] == account[i].1
  {
    SaveAddressesEffect(modules, account);
    forall i | 0 <= i < |account| && context[i].m.id !in ContextIds(context[i + 1..])
      ensures !Saves(account[i + 1..], account[i].0)
    {
      SavesLater(account, context, i);
    }
  }

  /** An update that removes nothing appends. */
  lemma OnlyAdditions(list: seq<Addr>, add: seq<Addr>)
    requires NoDup(list) && UpdateWhitelist(list, add, []).Ok?
    ensures var r := UpdateWhitelist(list, add, []).value;
            r == list + add && NoDup(r) && |r| <= WHITELIST_SIZE_LIMIT
  {
    UpdateWhitelistIff(list, add, []);
    FilterAll(list + add, a => a !in []);
  }

  lemma SavesLater(account: seq<(ModuleId, Addr)>, context: seq<InstallEntry>, i: nat)
    requires |account| == |context| && i < |account|
    requires forall j :: 0 <= j < |account| ==> account[j].0 == context[j].m.id
    requires context[i].m.id !in ContextIds(context[i + 1..])
    ensures !Saves(account[i + 1..], account[i].0)
  {
    var later := account[i + 1..];
    forall j | 0 <= j < |later|
      ensures later[j].0 != account[i].0
    {
      assert later[j] == account[i + 1 + j] && context[i + 1..][j] == context[i + 1 + j];
      ContextIdsMember(context[i + 1..], context[i + 1..][j]);
    }
  }

  /** A successful install keeps the bijection if and only if the batch overwrites none of its acting entries. */
  lemma InstallWhitelistIff(s: Sys, chain: Chain, batch: seq<InstallConfig>, after: World)
    requires s.kinds.Keys == s.st.modules.Keys && WhitelistMatches(s)
    requires InstallModules(s.st, chain, s.w, batch).Ok?
    requires RegisterDependencies(InstallModules(s.st, chain, s.w, batch).value, after).Ok?
    ensures WhitelistMatches(Step(s, Install(chain, batch, after)))
            <==> NoActingOverwritten(InstallModules(s.st, chain, s.w, batch).value.installContext)
  {
    var pending := InstallModules(s.st, chain, s.w, batch).value;
    var account := InstallSaved(s, chain, batch);
    BatchMatchesIff(s.st.modules, s.kinds, s.st.whitelist, pending.modules,
                    RecordKinds(s.kinds, pending.installContext), account, pending.installContext);
  }

  // ------------------------------------------------------------------ uninstall

  /** How the registry classifies the module data found at the module's address. */
  ghost predicate RegistryLists(s: Sys, chain: Chain, id: ModuleId) {
    && LoadModuleData(s.st.modules, s.w, id).Ok?
    && var data := LoadModuleData(s.st.modules, s.w, id).value;
       var m := Lookup(chain, Exactly(data.name, data.version));
       m.Some? && ShouldBeWhitelisted(m.value.id, m.value.reference)
  }

  /** A successful uninstall keeps the bijection if and only if the registry still classifies the module as recorded. */
  lemma UninstallWhitelistIff(s: Sys, chain: Chain, id: ModuleId)
    requires s.kinds.Keys == s.st.modules.Keys && WhitelistMatches(s)
    requires UninstallModule(s.st, chain, s.w, id).Ok?
    ensures WhitelistMatches(Step(s, Uninstall(chain, id)))
            <==> (RegistryLists(s, chain, id) <==> Acts(s.st.modules, s.kinds, id))
  {
    var t := Step(s, Uninstall(chain, id));
    var a := s.st.modules[id];
    forall m
      ensures Acts(t.st.modules, t.kinds, m) <==> m != id && Acts(s.st.modules, s.kinds, m)
    {}
    if RegistryLists(s, chain, id) {
      UpdateWhitelistIff(s.st.whitelist, [], [a]);
      assert s.st.whitelist + [] == s.st.whitelist;
      assert a in [a];
      assert t.st.whitelist == Filter(s.st.whitelist, x => x !in [a]);
      assert a in s.st.whitelist && a !in t.st.whitelist;
      if Acts(s.st.modules, s.kinds, id) {
        RemovalMatches(s, t, id);
      } else {
        var other :| Acts(s.st.modules, s.kinds, other) && s.st.modules[other] == a;
        assert Acts(t.st.modules, t.kinds, other) && t.st.modules[other] !in t.st.whitelist;
      }
    } else {
      assert t.st.whitelist == s.st.whitelist;
      if Acts(s.st.modules, s.kinds, id) {
        assert a in t.st.whitelist;
        assert forall m :: Acts(t.st.modules, t.kinds, m) ==> t.st.modules[m] != a;
      } else {
        LeavingMatches(s, t, id);
      }
    }
  }

  /** A module that does not act can leave without touching the list. */
  lemma LeavingMatches(s: Sys, t: Sys, id: ModuleId)
    requires WhitelistMatches(s) && !Acts(s.st.modules, s.kinds, id)
    requires t.st.modules == s.st.modules - {id} && t.kinds == s.kinds - {id} && t.st.whitelist == s.st.whitelist
    ensures WhitelistMatches(t)
  {
    forall a | a in t.st.whitelist
      ensures exists m :: Acts(t.st.modules, t.kinds, m) && t.st.modules[m] == a
    {
      var m :| Acts(s.st.modules, s.kinds, m) && s.st.modules[m] == a;
      assert Acts(t.st.modules, t.kinds, m);
    }
  }

  lemma RemovalMatches(s: Sys, t: Sys, id: ModuleId)
    requires WhitelistMatches(s) && Acts(s.st.modules, s.kinds, id)
    requires t.st.modules == s.st.modules - {id} && t.kinds == s.kinds - {id}
    requires t.st.whitelist == Filter(s.st.whitelist, x => x !in [s.st.modules[id]])
    ensures WhitelistMatches(t)
  {
    FilterKeepsNoDup(s.st.whitelist, x => x !in [s.st.modules[id]]);
    forall a | a in t.st.whitelist
      ensures exists m :: Acts(t.st.modules, t.kinds, m) && t.st.modules[m] == a
    {
      var m :| Acts(s.st.modules, s.kinds, m) && s.st.modules[m] == a;
      assert Acts(t.st.modules, t.kinds, m);
    }
  }

  // ------------------------------------------------------------------ upgrade

  /** Replacing one acting module's address in the map and on the list together neither makes nor breaks the bijection. */
  lemma ReplacementIff(modules: map<ModuleId, Addr>, kinds: map<ModuleId, ModuleReference>, list: seq<Addr>, id: ModuleId, a: Addr)
    requires NoDup(list) && Acts(modules, kinds, id)
    requires UpdateWhitelist(list, [a], [modules[id]]).Ok?
    ensures var r := UpdateWhitelist(list, [a], [modules[id]]).value;
            && NoDup(r) && |r| == |list|
            && (Corresponds(modules[id := a], kinds, r) <==> Corresponds(modules, kinds, list))
  {
    UpdateWhitelistIff(list, [a], [modules[id]]);
    var r := UpdateWhitelist(list, [a], [modules[id]]).value;
    assert a in [a] && a !in list;
    if modules[id] == a {
      assert modules[id := a] == modules;
      FilterConcat(list, [a], x => x !in [a]);
      FilterAll(list, x => x !in [a]);
      assert [a][1..] == [] && r == list;
    } else {
      assert modules[id] in list by {
        assert modules[id] in [modules[id]];
      }
      forall x
        ensures x in r <==> (x in list || x == a) && x != modules[id]
      {
        assert x in list + [a] <==> x in list || x == a;
      }
      if Corresponds(modules, kinds, list) {
        ReplacementForth(modules, kinds, list, id, a, r);
      }
      if Corresponds(modules[id := a], kinds, r) {
        ReplacementBack(modules, kinds, list, id, a, r);
      }
    }
  }

  lemma ReplacementForth(modules: map<ModuleId, Addr>, kinds: map<ModuleId, ModuleReference>, list: seq<Addr>, id: ModuleId,
                         a: Addr, r: seq<Addr>)
    requires Corresponds(modules, kinds, list) && Acts(modules, kinds, id) && NoDup(r)
    requires a !in list && modules[id] in list && forall x :: x in r <==> (x in list || x == a) && x != modules[id]
    ensures Corresponds(modules[id := a], kinds, r)
  {
    var modules2 := modules[id := a];
    forall x | x in r
      ensures exists m :: Acts(modules2, kinds, m) && modules2[m] == x
    {
      if x == a {
        assert Acts(modules2, kinds, id);
      } else {
        var m :| Acts(modules, kinds, m) && modules[m] == x;
        assert Acts(modules2, kinds, m) && modules2[m] == x;
      }
    }
  }

  lemma ReplacementBack(modules: map<ModuleId, Addr>, kinds: map<ModuleId, ModuleReference>, list: seq<Addr>, id: ModuleId,
                        a: Addr, r: seq<Addr>)
    requires Corresponds(modules[id := a], kinds, r) && Acts(modules, kinds, id) && NoDup(list)
    requires a !in list && modules[id] in list && forall x :: x in r <==> (x in list || x == a) && x != modules[id]
    ensures Corresponds(modules, kinds, list)
  {
    var modules2 := modules[id := a];
    assert Acts(modules2, kinds, id);
    forall m | Acts(modules, kinds, m) && m != id
      ensures modules[m] in list && modules[m] != modules[id]
    {
      assert Acts(modules2, kinds, m);
    }
    forall m, n | Acts(modules, kinds, m) && Acts(modules, kinds, n) && modules[m] == modules[n]
      ensures m == n
    {
      assert Acts(modules2, kinds, m) && Acts(modules2, kinds, n);
    }
    forall x | x in list
      ensures exists m :: Acts(modules, kinds, m) && modules[m] == x
    {
      if x == modules[id] {
        assert Acts(modules, kinds, id);
      } else {
        var m :| Acts(modules2, kinds, m) && modules2[m] == x;
        assert Acts(modules, kinds, m) && modules[m] == x;
      }
    }
  }

  /** The first phase, seen with the kinds the modules will have afterwards: it neither makes nor breaks the bijection. */
  lemma {:induction false} UpgradeEachIff(st: Storage, kinds: map<ModuleId, ModuleReference>, chain: Chain, w: World,
                                          reqs: seq<UpgradeRequest>, done: seq<ModuleId>)
    requires UpgradeEach(st, chain, w, reqs, done).Some? && NoDup(st.whitelist)
    requires forall q :: q in reqs && q.info.id != ACCOUNT && Lookup(chain, q.info).Some? ==>
               q.info.id in kinds && kinds[q.info.id] == Lookup(chain, q.info).value.reference
    ensures var r := UpgradeEach(st, chain, w, reqs, done).value;
            && NoDup(r.whitelist) && |r.whitelist| == |st.whitelist|
            && (Corresponds(r.modules, kinds, r.whitelist) <==> Corresponds(st.modules, kinds, st.whitelist))
    decreases reqs
  {
    if reqs != [] {
      var head, rest := reqs[0], reqs[1..];
      assert head in reqs && forall q :: q in rest ==> q in reqs;
      if head.info.id == ACCOUNT {
        UpgradeEachIff(st, kinds, chain, w, rest, done + [ACCOUNT]);
      } else {
        var next := SetMigrateContext(st, chain, w, head).value;
        SetMigrateContextIff(st, kinds, chain, w, head);
        UpgradeEachIff(next, kinds, chain, w, rest, done + [head.info.id]);
      }
    }
  }

  lemma SetMigrateContextIff(st: Storage, kinds: map<ModuleId, ModuleReference>, chain: Chain, w: World, req: UpgradeRequest)
    requires SetMigrateContext(st, chain, w, req).Some? && NoDup(st.whitelist)
    requires Lookup(chain, req.info).Some? ==>
               req.info.id in kinds && kinds[req.info.id] == Lookup(chain, req.info).value.reference
    ensures var r := SetMigrateContext(st, chain, w, req).value;
            && NoDup(r.whitelist) && |r.whitelist| == |st.whitelist|
            && (Corresponds(r.modules, kinds, r.whitelist) <==> Corresponds(st.modules, kinds, st.whitelist))
  {
    var id := req.info.id;
    var m := RequestedModule(chain, StoredVersion(chain, w, st.modules[id]).value, req.info).value;
    if m.reference.Adapter? {
      SaveOne(st.modules, id, m.reference.addr);
      ReplacementIff(st.modules, kinds, st.whitelist, id, m.reference.addr);
    }
  }

  /** m stops acting when the kinds change from kinds to later; with the two exchanged, it starts. */
  ghost predicate Stops(modules: map<ModuleId, Addr>, kinds: map<ModuleId, ModuleReference>,
                        later: map<ModuleId, ModuleReference>, m: ModuleId)
  {
    Acts(modules, kinds, m) && !Acts(modules, later, m)
  }

  /** The addresses of the modules that stop acting. */
  ghost function Left(modules: map<ModuleId, Addr>, kinds: map<ModuleId, ModuleReference>,
                      later: map<ModuleId, ModuleReference>): set<Addr>
  {
    set m | m in modules && Stops(modules, kinds, later, m) :: modules[m]
  }

  /**
   The modules that start acting have the addresses of those that stop, one each, so that every whitelist entry that is
   left is taken over. In particular this holds when no module starts or stops acting.
   */
  ghost predicate TakenOver(modules: map<ModuleId, Addr>, kinds: map<ModuleId, ModuleReference>,
                            later: map<ModuleId, ModuleReference>)
  {
    && Left(modules, kinds, later) == Left(modules, later, kinds)
    && (forall m, n :: Stops(modules, later, kinds, m) && Stops(modules, later, kinds, n) && modules[m] == modules[n] ==> m == n)
  }

  /** Changing only the kinds keeps the bijection exactly when the entries are taken over. */
  lemma TakenOverIff(modules: map<ModuleId, Addr>, kinds: map<ModuleId, ModuleReference>,
                     later: map<ModuleId, ModuleReference>, list: seq<Addr>)
    requires Corresponds(modules, kinds, list)
    ensures Corresponds(modules, later, list) <==> TakenOver(modules, kinds, later)
  {
    if Corresponds(modules, later, list) {
      LeftTaken(modules, kinds, later, list);
      LeftTaken(modules, later, kinds, list);
    }
    if TakenOver(modules, kinds, later) {
      TakenOverCorresponds(modules, kinds, later, list);
    }
  }

  lemma LeftTaken(modules: map<ModuleId, Addr>, kinds: map<ModuleId, ModuleReference>,
                  later: map<ModuleId, ModuleReference>, list: seq<Addr>)
    requires Corresponds(modules, kinds, list) && Corresponds(modules, later, list)
    ensures Left(modules, kinds, later) <= Left(modules, later, kinds)
  {
    forall a | a in Left(modules, kinds, later)
      ensures a in Left(modules, later, kinds)
    {
      var m :| m in modules && Stops(modules, kinds, later, m) && modules[m] == a;
      var n :| Acts(modules, later, n) && modules[n] == a;
      assert Stops(modules, later, kinds, n);
    }
  }

  lemma TakenOverCorresponds(modules: map<ModuleId, Addr>, kinds: map<ModuleId, ModuleReference>,
                             later: map<ModuleId, ModuleReference>, list: seq<Addr>)
    requires Corresponds(modules, kinds, list) && TakenOver(modules, kinds, later)
    ensures Corresponds(modules, later, list)
  {
    forall m | Acts(modules, later, m)
      ensures modules[m] in list
    {
      var p := Predecessor(modules, kinds, later, m);
    }
    forall m, n | Acts(modules, later, m) && Acts(modules, later, n) && modules[m] == modules[n]
      ensures m == n
    {
      TakenOverInjective(modules, kinds, later, list, m, n);
    }
    forall a | a in list
      ensures exists m :: Acts(modules, later, m) && modules[m] == a
    {
      var m :| Acts(modules, kinds, m) && modules[m] == a;
      if !Acts(modules, later, m) {
        assert Stops(modules, kinds, later, m);
        assert a in Left(modules, kinds, later) && a in Left(modules, later, kinds);
      }
    }
  }

  /** The module whose whitelist entry m uses: itself, or the one it has taken over from. */
  lemma Predecessor(modules: map<ModuleId, Addr>, kinds: map<ModuleId, ModuleReference>,
                    later: map<ModuleId, ModuleReference>, m: ModuleId) returns (p: ModuleId)
    requires TakenOver(modules, kinds, later) && Acts(modules, later, m)
    ensures Acts(modules, kinds, p) && modules[p] == modules[m]
    ensures if Acts(modules, kinds, m) then p == m else Stops(modules, kinds, later, p)
  {
    if Acts(modules, kinds, m) {
      p := m;
    } else {
      assert Stops(modules, later, kinds, m);
      assert modules[m] in Left(modules, later, kinds) && modules[m] in Left(modules, kinds, later);
      p :| p in modules && Stops(modules, kinds, later, p) && modules[p] == modules[m];
    }
  }

  lemma TakenOverInjective(modules: map<ModuleId, Addr>, kinds: map<ModuleId, ModuleReference>,
                           later: map<ModuleId, ModuleReference>, list: seq<Addr>, m: ModuleId, n: ModuleId)
    requires Corresponds(modules, kinds, list) && TakenOver(modules, kinds, later)
    requires Acts(modules, later, m) && Acts(modules, later, n) && modules[m] == modules[n]
    ensures m == n
  {
    var p := Predecessor(modules, kinds, later, m);
    var q := Predecessor(modules, kinds, later, n);
    assert p == q;
    if !Acts(modules, kinds, m) {
      assert Stops(modules, later, kinds, m) && Stops(modules, later, kinds, n);
    }
  }

  /**
   A successful upgrade keeps the bijection if and only if the whitelist entries of the modules that stop acting, by the
   kinds the registry lists for the requests, are taken over by those that start. Adapters change their address in the
   map and on the list together; a change of kind does not touch the list.
   */
  lemma UpgradeWhitelistIff(s: Sys, chain: Chain, reqs: seq<UpgradeRequest>, after: World, pending: Storage, t: Sys)
    requires Completed(s, chain, reqs, after, pending, t) && WhitelistMatches(s)
    ensures WhitelistMatches(t) <==> TakenOver(s.st.modules, s.kinds, RecordUpgrades(s.kinds, chain, reqs))
    ensures |t.st.whitelist| == |s.st.whitelist| && NoDup(t.st.whitelist)
  {
    KindsAfter(s, chain, reqs, after, pending, t);
    TakenOverIff(s.st.modules, s.kinds, t.kinds, s.st.whitelist);
    UpgradeEachIff(s.st.(callingToAsAdmin := Some(CALLING_TO_AS_ADMIN_WILD_CARD)), t.kinds, chain, s.w, reqs, []);
  }

  /** A module that does not act has an address of its own. */
  ghost predicate OwnAddresses(s: Sys) {
    forall m, n :: m in s.st.modules && Acts(s.st.modules, s.kinds, n) && s.st.modules[m] == s.st.modules[n] ==> m == n
  }

  /** The requested kind belongs on the whitelist exactly when the recorded one does. */
  ghost predicate KeepsStatus(s: Sys, chain: Chain, q: UpgradeRequest) {
    && q.info.id in s.kinds && Lookup(chain, q.info).Some?
    && (ShouldBeWhitelisted(q.info.id, Lookup(chain, q.info).value.reference)
        <==> ShouldBeWhitelisted(q.info.id, s.kinds[q.info.id]))
  }

  /**
   Upgrades in which every requested module keeps its whitelist status keep the bijection; where no two modules share an
   address, no others do.
   */
  lemma UpgradeWhitelistByStatus(s: Sys, chain: Chain, reqs: seq<UpgradeRequest>, after: World, pending: Storage, t: Sys)
    requires Completed(s, chain, reqs, after, pending, t) && WhitelistMatches(s)
    ensures (forall q :: q in reqs && q.info.id != ACCOUNT ==> KeepsStatus(s, chain, q)) ==> WhitelistMatches(t)
    ensures OwnAddresses(s) && WhitelistMatches(t) ==> forall q :: q in reqs && q.info.id != ACCOUNT ==> KeepsStatus(s, chain, q)
  {
    UpgradeWhitelistIff(s, chain, reqs, after, pending, t);
    StatusKeptIff(s, chain, reqs, after, pending, t);
    if forall m :: Acts(s.st.modules, s.kinds, m) <==> Acts(s.st.modules, t.kinds, m) {
      NobodyStops(s.st.modules, s.kinds, t.kinds);
      NobodyStops(s.st.modules, t.kinds, s.kinds);
    }
    if OwnAddresses(s) && TakenOver(s.st.modules, s.kinds, t.kinds) {
      OwnAddressesKeep(s, t.kinds);
    }
  }

  lemma NobodyStops(modules: map<ModuleId, Addr>, kinds: map<ModuleId, ModuleReference>, later: map<ModuleId, ModuleReference>)
    requires forall m :: Acts(modules, kinds, m) ==> Acts(modules, later, m)
    ensures Left(modules, kinds, later) == {} && forall m :: !Stops(modules, kinds, later, m)
  {}

  /** Nobody starts or stops acting exactly when every requested module keeps its status. */
  lemma StatusKeptIff(s: Sys, chain: Chain, reqs: seq<UpgradeRequest>, after: World, pending: Storage, t: Sys)
    requires Completed(s, chain, reqs, after, pending, t)
    ensures (forall q :: q in reqs && q.info.id != ACCOUNT ==> KeepsStatus(s, chain, q))
            <==> forall m :: Acts(s.st.modules, s.kinds, m) <==> Acts(s.st.modules, t.kinds, m)
  {
    KindsAfter(s, chain, reqs, after, pending, t);
    UpgradeModulesEffect(s, chain, reqs);
    forall q | q in reqs && q.info.id != ACCOUNT
      ensures KeepsStatus(s, chain, q) <==> (Acts(s.st.modules, s.kinds, q.info.id) <==> Acts(s.st.modules, t.kinds, q.info.id))
    {}
    if forall q :: q in reqs && q.info.id != ACCOUNT ==> KeepsStatus(s, chain, q) {
      forall m
        ensures Acts(s.st.modules, s.kinds, m) <==> Acts(s.st.modules, t.kinds, m)
      {
        if m in Targets(reqs) {
          var q := TheRequest(chain, reqs, m);
        }
      }
    }
  }

  lemma OwnAddressesKeep(s: Sys, later: map<ModuleId, ModuleReference>)
    requires OwnAddresses(s) && TakenOver(s.st.modules, s.kinds, later)
    ensures forall m :: Acts(s.st.modules, s.kinds, m) <==> Acts(s.st.modules, later, m)
  {
    forall a
      ensures a !in Left(s.st.modules, s.kinds, later)
    {}
    forall m
      ensures Acts(s.st.modules, s.kinds, m) <==> Acts(s.st.modules, later, m)
    {
      if m in s.st.modules {
        assert s.st.modules[m] !in Left(s.st.modules, s.kinds, later);
        assert s.st.modules[m] !in Left(s.st.modules, later, s.kinds);
        assert !Stops(s.st.modules, s.kinds, later, m) && !Stops(s.st.modules, later, s.kinds, m);
      }
    }
  }

  // ------------------------------------------------------------------ runs

  /**
   Beyond the conditions on the steps: the registry still classifies an uninstalled module as it was recorded, and upgrades
   that make modules start acting make as many stop at the same addresses, or none.
   */
  ghost predicate WhitelistFriendly(s: Sys, a: Action) {
    match a
    case Install(_, _, _) => true
    case Uninstall(chain, id) =>
      UninstallModule(s.st, chain, s.w, id).Ok? ==>
        (RegistryLists(s, chain, id) <==> Acts(s.st.modules, s.kinds, id))
    case Upgrade(chain, reqs, after) =>
      UpgradeModules(s.st, chain, s.w, reqs).Some?
      && FinishUpgrade(UpgradeModules(s.st, chain, s.w, reqs).value, after).Some? ==>
        TakenOver(s.st.modules, s.kinds, RecordUpgrades(s.kinds, chain, reqs))
    case Elsewhere(_) => true
  }

  ghost predicate FriendlyRun(s: Sys, actions: seq<Action>)
    decreases actions
  {
    actions == [] ||
    (Admissible(s, actions[0]) && WhitelistFriendly(s, actions[0]) && FriendlyRun(Step(s, actions[0]), actions[1..]))
  }

  lemma StepKeepsWhitelist(s: Sys, a: Action)
    requires Valid(s) && WhitelistMatches(s) && Admissible(s, a) && WhitelistFriendly(s, a)
    ensures WhitelistMatches(Step(s, a))
  {
    match a
    case Install(chain, batch, after) =>
      if InstallModules(s.st, chain, s.w, batch).Ok? {
        if RegisterDependencies(InstallModules(s.st, chain, s.w, batch).value, after).Ok? {
          InstallWhitelistIff(s, chain, batch, after);
          DistinctOverwritesNothing(s.st, s.kinds, chain, s.w, after, batch);
        }
      }
    case Uninstall(chain, id) =>
      if UninstallModule(s.st, chain, s.w, id).Ok? {
        UninstallWhitelistIff(s, chain, id);
      }
    case Upgrade(chain, reqs, after) =>
      if UpgradeModules(s.st, chain, s.w, reqs).Some? {
        var pending := UpgradeModules(s.st, chain, s.w, reqs).value;
        if FinishUpgrade(pending, after).Some? {
          UpgradeWhitelistIff(s, chain, reqs, after, pending, Step(s, a));
        }
      }
    case Elsewhere(_) =>
  }

  lemma {:induction false} RunKeepsWhitelist(s: Sys, actions: seq<Action>)
    requires Valid(s) && WhitelistMatches(s) && FriendlyRun(s, actions)
    ensures Valid(Run(s, actions)) && WhitelistMatches(Run(s, actions))
    decreases actions
  {
    if actions != [] {
      StepKeepsValid(s, actions[0]);
      StepKeepsWhitelist(s, actions[0]);
      RunKeepsWhitelist(Step(s, actions[0]), actions[1..]);
    }
  }

  /** The whitelist of a fresh account after any such run: the acting modules' addresses, at most fifteen, one each. */
  lemma FreshRunsMatch(w: World, actions: seq<Action>)
    requires FriendlyRun(Sys(FRESH_STORAGE, w, map[]), actions)
    ensures var s := Run(Sys(FRESH_STORAGE, w, map[]), actions);
            && NoDup(s.st.whitelist)
            && (forall a :: a in s.st.whitelist <==> exists m :: m in ActingModules(s) && s.st.modules[m] == a)
            && |ActingModules(s)| == |s.st.whitelist| <= 15
  {
    RunKeepsWhitelist(Sys(FRESH_STORAGE, w, map[]), actions);
    var s := Run(Sys(FRESH_STORAGE, w, map[]), actions);
    ActingBound(s);
    forall a | a in s.st.whitelist
      ensures exists m :: m in ActingModules(s) && s.st.modules[m] == a
    {
      var m :| Acts(s.st.modules, s.kinds, m) && s.st.modules[m] == a;
      assert m in ActingModules(s);
    }
  }

  ghost function ActingModules(s: Sys): set<ModuleId> {
    set m | m in s.st.modules && Acts(s.st.modules, s.kinds, m)
  }

  /** Never more than fifteen acting modules are installed: as many as there are whitelist entries. */
  lemma ActingBound(s: Sys)
    requires WhitelistMatches(s)
    ensures |ActingModules(s)| == |s.st.whitelist| <= 15
  {
    var acting := ActingModules(s);
    InjectiveImageSize(acting, s.st.modules);
    NoDupSetSize(s.st.whitelist);
    assert (set m | m in acting :: s.st.modules[m]) == (set a | a in s.st.whitelist);
  }

  lemma {:induction false} InjectiveImageSize(keys: set<ModuleId>, f: map<ModuleId, Addr>)
    requires keys <= f.Keys
    requires forall m, n :: m in keys && n in keys && f[m] == f[n] ==> m == n
    ensures |set m | m in keys :: f[m]| == |keys|
    decreases keys
  {
    if keys == {} {
      assert (set m | m in keys :: f[m]) == {};
    } else {
      var k :| k in keys;
      InjectiveImageSize(keys - {k}, f);
      assert (set m | m in keys :: f[m]) == (set m | m in keys - {k} :: f[m]) + {f[k]};
    }
  }
}
