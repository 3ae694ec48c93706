/** The inverse index `DEPENDENTS`: for every module id, the ids of the modules that declare it as a dependency. */
module Dependents {
  import opened Basics
  import opened ModuleTypes

  type Index = map<ModuleId, set<ModuleId>>

  function DependentsOf(ix: Index, d: ModuleId): set<ModuleId> {
    GetOr(ix, d, {})
  }

  function SetAsDependent(ix: Index, id: ModuleId, deps: seq<Dependency>): Index
    decreases deps
  {
    if deps == [] then ix
    else SetAsDependent(ix[deps[0].id := DependentsOf(ix, deps[0].id) + {id}], id, deps[1..])
  }

  function RemoveAsDependent(ix: Index, id: ModuleId, deps: seq<Dependency>): Index
    decreases deps
  {
    if deps == [] then ix
    else RemoveAsDependent(ix[deps[0].id := DependentsOf(ix, deps[0].id) - {id}], id, deps[1..])
  }

  /** Removal during an upgrade: the stored set is unwrapped, so a missing one aborts (None). */
  function RemoveStored(ix: Index, id: ModuleId, deps: seq<Dependency>): Option<Index>
    decreases deps
  {
    if deps == [] then Some(ix)
    else if deps[0].id !in ix then None
    else RemoveStored(ix[deps[0].id := ix[deps[0].id] - {id}], id, deps[1..])
  }

  /** Entries of `these` that do not occur, requirement included, in `those`. */
  function Without(these: seq<Dependency>, those: seq<Dependency>): seq<Dependency> {
    Filter(these, d => d !in those)
  }

  /** `maybe_remove_old_deps` followed by `maybe_add_new_deps`. */
  function Retarget(ix: Index, id: ModuleId, oldDeps: seq<Dependency>, newDeps: seq<Dependency>): Option<Index> {
    match RemoveStored(ix, id, Without(oldDeps, newDeps))
    case None => None
    case Some(removed) => Some(SetAsDependent(removed, id, Without(newDeps, oldDeps)))
  }

  lemma DepIdsHead(deps: seq<Dependency>)
    requires deps != []
    ensures DepIds(deps) == {deps[0].id} + DepIds(deps[1..])
  {
    forall d | d in DepIds(deps)
      ensures d in {deps[0].id} + DepIds(deps[1..])
    {
      var i :| 0 <= i < |deps| && deps[i].id == d;
      if i > 0 {
        assert deps[1..][i - 1].id == d;
      }
    }
    forall d | d in DepIds(deps[1..])
      ensures d in DepIds(deps)
    {
      var i :| 0 <= i < |deps[1..]| && deps[1..][i].id == d;
      assert deps[i + 1].id == d;
    }
  }

  lemma DepIdsMember(deps: seq<Dependency>, id: ModuleId)
    ensures id in DepIds(deps) <==> exists d :: d in deps && d.id == id
  {
    if d :| d in deps && d.id == id {
      var i :| 0 <= i < |deps| && deps[i] == d;
      assert deps[i].id in DepIds(deps);
    }
    if id in DepIds(deps) {
      var i :| 0 <= i < |deps| && deps[i].id == id;
      assert deps[i] in deps;
    }
  }

  lemma {:induction false} SetAsDependentExact(ix: Index, id: ModuleId, deps: seq<Dependency>)
    ensures SetAsDependent(ix, id, deps).Keys == ix.Keys + DepIds(deps)
    ensures forall d :: DependentsOf(SetAsDependent(ix, id, deps), d)
                        == DependentsOf(ix, d) + (if d in DepIds(deps) then {id} else {})
    decreases deps
  {
    if deps != [] {
      DepIdsHead(deps);
      SetAsDependentExact(ix[deps[0].id := DependentsOf(ix, deps[0].id) + {id}], id, deps[1..]);
    }
  }

  lemma {:induction false} RemoveAsDependentExact(ix: Index, id: ModuleId, deps: seq<Dependency>)
    ensures RemoveAsDependent(ix, id, deps).Keys == ix.Keys + DepIds(deps)
    ensures forall d :: DependentsOf(RemoveAsDependent(ix, id, deps), d)
                        == DependentsOf(ix, d) - (if d in DepIds(deps) then {id} else {})
    decreases deps
  {
    if deps != [] {
      DepIdsHead(deps);
      RemoveAsDependentExact(ix[deps[0].id := DependentsOf(ix, deps[0].id) - {id}], id, deps[1..]);
    }
  }

  lemma {:induction false} RemoveStoredExact(ix: Index, id: ModuleId, deps: seq<Dependency>)
    ensures RemoveStored(ix, id, deps).Some? <==> DepIds(deps) <= ix.Keys
    ensures RemoveStored(ix, id, deps).Some? ==> RemoveStored(ix, id, deps).value.Keys == ix.Keys
    ensures RemoveStored(ix, id, deps).Some? ==>
              forall d :: DependentsOf(RemoveStored(ix, id, deps).value, d)
                          == DependentsOf(ix, d) - (if d in DepIds(deps) then {id} else {})
    decreases deps
  {
    if deps != [] {
      DepIdsHead(deps);
      if deps[0].id in ix {
        var next := ix[deps[0].id := ix[deps[0].id] - {id}];
        RemoveStoredExact(next, id, deps[1..]);
        assert next.Keys == ix.Keys;
      }
    }
  }

  /** The index lists id under exactly the dependencies deps. */
  ghost predicate ListsExactly(ix: Index, id: ModuleId, deps: seq<Dependency>) {
    forall d :: id in DependentsOf(ix, d) <==> d in DepIds(deps)
  }

  /**
   Some id of the new list survives only in entries the old list already had, while another old entry
   for the same id was dropped. The removal then takes the id out and nothing puts it back.
   */
  ghost predicate LosesEntry(oldDeps: seq<Dependency>, newDeps: seq<Dependency>) {
    exists gone, stays ::
      && gone in oldDeps && gone !in newDeps
      && stays in newDeps && stays.id == gone.id
      && forall e :: e in newDeps && e.id == gone.id ==> e in oldDeps
  }

  lemma DistinctNeverLoses(oldDeps: seq<Dependency>, newDeps: seq<Dependency>)
    requires DistinctIds(oldDeps)
    ensures !LosesEntry(oldDeps, newDeps)
  {
    forall x, y | x in oldDeps && y in oldDeps && x.id == y.id
      ensures x == y
    {
      var i :| 0 <= i < |oldDeps| && oldDeps[i] == x;
      var j :| 0 <= j < |oldDeps| && oldDeps[j] == y;
    }
  }

  /** No entry of the old list was recorded, and for some id of the new list none will be: all its entries are old ones. */
  ghost predicate HidesEntry(oldDeps: seq<Dependency>, newDeps: seq<Dependency>) {
    exists stays :: stays in newDeps && forall e :: e in newDeps && e.id == stays.id ==> e in oldDeps
  }

  /** The comparison of the two lists moves a module's entries to exactly the new list. */
  ghost predicate MovesExactly(recorded: bool, oldDeps: seq<Dependency>, newDeps: seq<Dependency>) {
    if recorded then !LosesEntry(oldDeps, newDeps) else !HidesEntry(oldDeps, newDeps)
  }

  /** What retargeting does to any index: it aborts on a missing set, and otherwise moves one module. */
  lemma RetargetEffect(ix: Index, id: ModuleId, oldDeps: seq<Dependency>, newDeps: seq<Dependency>)
    ensures var r := Retarget(ix, id, oldDeps, newDeps);
            && (r.Some? <==> DepIds(Without(oldDeps, newDeps)) <= ix.Keys)
            && (r.Some? ==>
                  && r.value.Keys == ix.Keys + DepIds(Without(newDeps, oldDeps))
                  && (forall d, m :: m != id ==> (m in DependentsOf(r.value, d) <==> m in DependentsOf(ix, d)))
                  && (forall d :: id in DependentsOf(r.value, d) <==>
                        || (id in DependentsOf(ix, d) && d !in DepIds(Without(oldDeps, newDeps)))
                        || d in DepIds(Without(newDeps, oldDeps))))
  {
    RemoveStoredExact(ix, id, Without(oldDeps, newDeps));
    if Retarget(ix, id, oldDeps, newDeps).Some? {
      SetAsDependentExact(RemoveStored(ix, id, Without(oldDeps, newDeps)).value, id, Without(newDeps, oldDeps));
    }
  }

  /** When the entries of a module, exact for the old list or absent, are exact for the new one after the move. */
  lemma MovedListing(ix: Index, next: Index, id: ModuleId, recorded: bool, oldDeps: seq<Dependency>, newDeps: seq<Dependency>)
    requires ListsExactly(ix, id, if recorded then oldDeps else [])
    requires forall d :: id in DependentsOf(next, d) <==>
               || (id in DependentsOf(ix, d) && d !in DepIds(Without(oldDeps, newDeps)))
               || d in DepIds(Without(newDeps, oldDeps))
    ensures ListsExactly(next, id, newDeps) <==> MovesExactly(recorded, oldDeps, newDeps)
  {
    var gone, added := Without(oldDeps, newDeps), Without(newDeps, oldDeps);
    forall d
      ensures (id in DependentsOf(next, d) <==> d in DepIds(newDeps))
              <==> !(d in DepIds(newDeps) && d !in DepIds(added) && (recorded ==> d in DepIds(gone)))
    {
      DepIdsMember(gone, d);
      DepIdsMember(added, d);
      DepIdsMember(oldDeps, d);
      DepIdsMember(newDeps, d);
    }
    if recorded {
      LosesEntryIds(oldDeps, newDeps);
    } else {
      HidesEntryIds(oldDeps, newDeps);
    }
  }

  lemma HidesEntryIds(oldDeps: seq<Dependency>, newDeps: seq<Dependency>)
    ensures HidesEntry(oldDeps, newDeps) <==> exists d :: d in DepIds(newDeps) && d !in DepIds(Without(newDeps, oldDeps))
  {
    if d :| d in DepIds(newDeps) && d !in DepIds(Without(newDeps, oldDeps)) {
      DepIdsMember(newDeps, d);
      DepIdsMember(Without(newDeps, oldDeps), d);
      var stays :| stays in newDeps && stays.id == d;
    }
    if HidesEntry(oldDeps, newDeps) {
      var stays :| stays in newDeps && forall e :: e in newDeps && e.id == stays.id ==> e in oldDeps;
      DepIdsMember(newDeps, stays.id);
      DepIdsMember(Without(newDeps, oldDeps), stays.id);
    }
  }

  /**
   Retargeting an index that was exact for the old list never aborts, leaves every other module's
   entries alone, and is exact for the new list if and only if no entry is lost.
   */
  lemma RetargetIff(ix: Index, id: ModuleId, oldDeps: seq<Dependency>, newDeps: seq<Dependency>)
    requires ListsExactly(ix, id, oldDeps)
    ensures var r := Retarget(ix, id, oldDeps, newDeps);
            && r.Some?
            && (forall d, m :: m != id ==> (m in DependentsOf(r.value, d) <==> m in DependentsOf(ix, d)))
            && (ListsExactly(r.value, id, newDeps) <==> !LosesEntry(oldDeps, newDeps))
  {
    RetargetEffect(ix, id, oldDeps, newDeps);
    forall d | d in DepIds(Without(oldDeps, newDeps))
      ensures d in ix
    {
      DepIdsMember(Without(oldDeps, newDeps), d);
      DepIdsMember(oldDeps, d);
      assert id in DependentsOf(ix, d);
    }
    MovedListing(ix, Retarget(ix, id, oldDeps, newDeps).value, id, true, oldDeps, newDeps);
  }

  lemma LosesEntryIds(oldDeps: seq<Dependency>, newDeps: seq<Dependency>)
    ensures LosesEntry(oldDeps, newDeps) <==>
            exists d :: d in DepIds(Without(oldDeps, newDeps)) && d in DepIds(newDeps) && d !in DepIds(Without(newDeps, oldDeps))
  {
    if d :| d in DepIds(Without(oldDeps, newDeps)) && d in DepIds(newDeps) && d !in DepIds(Without(newDeps, oldDeps)) {
      DepIdsMember(Without(oldDeps, newDeps), d);
      DepIdsMember(newDeps, d);
      DepIdsMember(Without(newDeps, oldDeps), d);
      var gone :| gone in Without(oldDeps, newDeps) && gone.id == d;
      var stays :| stays in newDeps && stays.id == d;
      assert gone in oldDeps && gone !in newDeps;
    }
    if LosesEntry(oldDeps, newDeps) {
      var gone, stays :| gone in oldDeps && gone !in newDeps && stays in newDeps && stays.id == gone.id
                         && forall e :: e in newDeps && e.id == gone.id ==> e in oldDeps;
      assert gone in Without(oldDeps, newDeps);
      DepIdsMember(Without(oldDeps, newDeps), gone.id);
      DepIdsMember(newDeps, gone.id);
      DepIdsMember(Without(newDeps, oldDeps), gone.id);
    }
  }

  /** A dependency list that names one module twice, shrunk to one of its entries, loses that module. */
  lemma DuplicateDependencyIsLost(id: ModuleId, d: ModuleId, bounds: Dependency, looser: Dependency)
    requires bounds.id == looser.id == d && bounds != looser
    ensures var ix := SetAsDependent(map[], id, [bounds, looser]);
            && ListsExactly(ix, id, [bounds, looser])
            && Retarget(ix, id, [bounds, looser], [bounds]).Some?
            && d in DepIds([bounds])
            && id !in DependentsOf(Retarget(ix, id, [bounds, looser], [bounds]).value, d)
  {
    var oldDeps, newDeps := [bounds, looser], [bounds];
    SetAsDependentExact(map[], id, oldDeps);
    var ix := SetAsDependent(map[], id, oldDeps);
    RetargetIff(ix, id, oldDeps, newDeps);
    assert Without(oldDeps, newDeps) == [looser] by {
      assert oldDeps[1..] == [looser] && [looser][1..] == [];
    }
    assert Without(newDeps, oldDeps) == [];
    RemoveStoredExact(ix, id, [looser]);
    assert [looser][0].id in DepIds([looser]);
    assert newDeps[0].id in DepIds(newDeps);
  }
}
