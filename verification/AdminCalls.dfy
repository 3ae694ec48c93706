/**
 The admin-call flag. A transaction is a tree of calls; a failing call is rolled back, and may be caught by
 the call that sent it. The account sets `CALLING_TO_AS_ADMIN` around an admin call and around an upgrade.
 */
module AdminCalls {
  import opened Basics
  import opened Cosmos

  /** `subs` are the messages sent by the called contract, `ok` tells whether its own handler succeeds. */
  datatype Call =
    | Plain(ok: bool, subs: seq<Sub>)
    | AdminExecute(authorized: bool, target: Addr, ok: bool, subs: seq<Sub>)
    | Upgrade(authorized: bool, ok: bool, subs: seq<Sub>)

  /** A message; a caught failure does not fail its sender. */
  datatype Sub = Sub(call: Call, caught: bool)

  /** An admin call or upgrade that is open. */
  datatype Frame = AdminFrame(target: Addr) | UpgradeFrame

  /** A point of the execution: the stored flag, and what is open, outermost first. */
  datatype Point = Point(flag: Option<Addr>, open: seq<Frame>)

  /** The flag afterwards, or None when the call failed and was rolled back; and every point passed on the way. */
  datatype Outcome = Outcome(after: Option<Option<Addr>>, points: seq<Point>)

  /** What is stored while the frame is open. */
  function Stored(f: Frame): Addr {
    if f.AdminFrame? then f.target else CALLING_TO_AS_ADMIN_WILD_CARD
  }

  function Interp(call: Call, flag: Option<Addr>, open: seq<Frame>): Outcome
    decreases call
  {
    match call
    case Plain(ok, subs) =>
      if !ok then Outcome(None, [Point(flag, open)])
      else
        var r := InterpSubs(subs, flag, open);
        Outcome(r.after, [Point(flag, open)] + r.points)
    case AdminExecute(authorized, target, ok, subs) =>
      // refused when any admin call is open
      if !authorized || flag.Some? then Outcome(None, [])
      else InterpOpen(AdminFrame(target), ok, subs, open)
    case Upgrade(authorized, ok, subs) =>
      // sets the wildcard without looking at the flag
      if !authorized then Outcome(None, [])
      else InterpOpen(UpgradeFrame, ok, subs, open)
  }

  /** The flag is saved, the messages run, and the reply removes the flag; without a success there is no reply. */
  function InterpOpen(frame: Frame, ok: bool, subs: seq<Sub>, open: seq<Frame>): Outcome
    decreases subs, 1
  {
    var opening := Point(Some(Stored(frame)), open + [frame]);
    if !ok then Outcome(None, [opening])
    else
      var r := InterpSubs(subs, opening.flag, opening.open);
      if r.after.None? then Outcome(None, [opening] + r.points)
      else Outcome(Some(None), [opening] + r.points + [Point(None, open)])
  }

  function InterpSubs(subs: seq<Sub>, flag: Option<Addr>, open: seq<Frame>): Outcome
    decreases subs, 0
  {
    if subs == [] then Outcome(Some(flag), [])
    else
      assert subs[0].call < subs[0];
      var head := Interp(subs[0].call, flag, open);
      if head.after.None? && !subs[0].caught then Outcome(None, head.points)
      else
        var next := if head.after.Some? then head.after.value else flag;
        var rest := InterpSubs(subs[1..], next, open);
        Outcome(rest.after, head.points + [Point(next, open)] + rest.points)
  }

  // ------------------------------------------------------------------ a finished transaction leaves no flag

  /** Whatever the tree, a call that succeeds leaves the flag as it was or clears it. */
  lemma {:induction false} FlagNeverLeft(call: Call, flag: Option<Addr>, open: seq<Frame>)
    ensures var after := Interp(call, flag, open).after;
            after.Some? ==> after.value == flag || after.value == None
    decreases call
  {
    match call
    case Plain(ok, subs) =>
      FlagNeverLeftSubs(subs, flag, open);
    case AdminExecute(_, _, _, _) =>
    case Upgrade(_, _, _) =>
  }

  lemma {:induction false} FlagNeverLeftSubs(subs: seq<Sub>, flag: Option<Addr>, open: seq<Frame>)
    ensures var after := InterpSubs(subs, flag, open).after;
            after.Some? ==> after.value == flag || after.value == None
    decreases subs
  {
    if subs != [] {
      assert subs[0].call < subs[0];
      FlagNeverLeft(subs[0].call, flag, open);
      var head := Interp(subs[0].call, flag, open);
      FlagNeverLeftSubs(subs[1..], if head.after.Some? then head.after.value else flag, open);
    }
  }

  /** A finished transaction leaves the flag clear. */
  lemma TransactionEndsClear(call: Call)
    ensures var after := Interp(call, None, []).after;
            after.Some? ==> after.value == None
  {
    FlagNeverLeft(call, None, []);
  }

  /** The record is complete to the end: a call that succeeds ends at a point with its own frames and the final flag. */
  lemma {:induction false} LastPoint(call: Call, flag: Option<Addr>, open: seq<Frame>)
    ensures var r := Interp(call, flag, open);
            r.after.Some? ==> r.points != [] && r.points[|r.points| - 1] == Point(r.after.value, open)
    decreases call
  {
    match call
    case Plain(ok, subs) =>
      LastPointSubs(subs, flag, open);
    case AdminExecute(_, _, _, _) =>
    case Upgrade(_, _, _) =>
  }

  lemma {:induction false} LastPointSubs(subs: seq<Sub>, flag: Option<Addr>, open: seq<Frame>)
    ensures var r := InterpSubs(subs, flag, open);
            r.after.Some? ==>
              if subs == [] then r.after.value == flag && r.points == []
              else r.points != [] && r.points[|r.points| - 1] == Point(r.after.value, open)
    decreases subs
  {
    if subs != [] {
      assert subs[0].call < subs[0];
      var head := Interp(subs[0].call, flag, open);
      LastPointSubs(subs[1..], if head.after.Some? then head.after.value else flag, open);
    }
  }

  // ------------------------------------------------------------------ the tree alone

  /**
   Whether a call succeeds, and whether the account is then locked against admin calls, read off the tree: an admin call
   or upgrade locks it for its messages, and its return unlocks it, whatever was locked before.
   */
  function Locks(call: Call, locked: bool): Option<bool>
    decreases call
  {
    match call
    case Plain(ok, subs) => if ok then LocksSubs(subs, locked) else None
    case AdminExecute(authorized, _, ok, subs) =>
      if authorized && !locked && ok && LocksSubs(subs, true).Some? then Some(false) else None
    case Upgrade(authorized, ok, subs) =>
      if authorized && ok && LocksSubs(subs, true).Some? then Some(false) else None
  }

  function LocksSubs(subs: seq<Sub>, locked: bool): Option<bool>
    decreases subs
  {
    if subs == [] then Some(locked)
    else
      assert subs[0].call < subs[0];
      if Locks(subs[0].call, locked).None? && !subs[0].caught then None
      else LocksSubs(subs[1..], GetLock(Locks(subs[0].call, locked), locked))
  }

  function GetLock(after: Option<bool>, before: bool): bool {
    if after.Some? then after.value else before
  }

  /** The bit is the presence of the stored flag. */
  lemma {:induction false} LocksIsFlag(call: Call, flag: Option<Addr>, open: seq<Frame>)
    ensures var after := Interp(call, flag, open).after;
            Locks(call, flag.Some?) == if after.Some? then Some(after.value.Some?) else None
    decreases call
  {
    match call
    case Plain(_, subs) =>
      LocksIsFlagSubs(subs, flag, open);
    case AdminExecute(_, target, _, subs) =>
      LocksIsFlagSubs(subs, Some(target), open + [AdminFrame(target)]);
    case Upgrade(_, _, subs) =>
      LocksIsFlagSubs(subs, Some(CALLING_TO_AS_ADMIN_WILD_CARD), open + [UpgradeFrame]);
  }

  lemma {:induction false} LocksIsFlagSubs(subs: seq<Sub>, flag: Option<Addr>, open: seq<Frame>)
    ensures var after := InterpSubs(subs, flag, open).after;
            LocksSubs(subs, flag.Some?) == if after.Some? then Some(after.value.Some?) else None
    decreases subs
  {
    if subs != [] {
      assert subs[0].call < subs[0];
      LocksIsFlag(subs[0].call, flag, open);
      var head := Interp(subs[0].call, flag, open);
      LocksIsFlagSubs(subs[1..], if head.after.Some? then head.after.value else flag, open);
    }
  }

  /** An authorized upgrade is reached inside an open admin call or upgrade. */
  predicate NestsUpgrade(call: Call, inside: bool, locked: bool)
    decreases call
  {
    match call
    case Plain(ok, subs) => ok && SubsNestUpgrade(subs, inside, locked)
    case AdminExecute(authorized, _, ok, subs) => authorized && !locked && ok && SubsNestUpgrade(subs, true, true)
    case Upgrade(authorized, ok, subs) => authorized && (inside || (ok && SubsNestUpgrade(subs, true, true)))
  }

  predicate SubsNestUpgrade(subs: seq<Sub>, inside: bool, locked: bool)
    decreases subs
  {
    if subs == [] then false
    else
      assert subs[0].call < subs[0];
      || NestsUpgrade(subs[0].call, inside, locked)
      || ((Locks(subs[0].call, locked).Some? || subs[0].caught)
          && SubsNestUpgrade(subs[1..], inside, GetLock(Locks(subs[0].call, locked), locked)))
  }

  /** An authorized admin call is reached inside an open admin call or upgrade after that has been unlocked. */
  predicate NestsAdminCall(call: Call, inside: bool, locked: bool)
    decreases call
  {
    match call
    case Plain(ok, subs) => ok && SubsNestAdminCall(subs, inside, locked)
    case AdminExecute(authorized, _, ok, subs) =>
      authorized && !locked && (inside || (ok && SubsNestAdminCall(subs, true, true)))
    case Upgrade(authorized, ok, subs) => authorized && ok && SubsNestAdminCall(subs, true, true)
  }

  predicate SubsNestAdminCall(subs: seq<Sub>, inside: bool, locked: bool)
    decreases subs
  {
    if subs == [] then false
    else
      assert subs[0].call < subs[0];
      || NestsAdminCall(subs[0].call, inside, locked)
      || ((Locks(subs[0].call, locked).Some? || subs[0].caught)
          && SubsNestAdminCall(subs[1..], inside, GetLock(Locks(subs[0].call, locked), locked)))
  }

  // ------------------------------------------------------------------ the flag names the one open call

  /** The flag is set exactly while one admin call or upgrade is open, and names its target or is the wildcard. */
  ghost predicate Faithful(p: Point) {
    |p.open| <= 1 && p.flag == (if p.open == [] then None else Some(Stored(p.open[0])))
  }

  ghost predicate AllFaithful(points: seq<Point>) {
    forall p :: p in points ==> Faithful(p)
  }

  lemma AllFaithfulConcat(a: seq<Point>, b: seq<Point>)
    ensures AllFaithful(a + b) <==> AllFaithful(a) && AllFaithful(b)
  {
    if AllFaithful(a + b) {
      assert forall p :: p in a ==> p in a + b;
      assert forall p :: p in b ==> p in a + b;
    }
  }

  /**
   From a faithful point, every point below is faithful if and only if no upgrade starts inside an open
   admin call or upgrade; and then the flag is afterwards what it was before.
   */
  lemma {:induction false} FaithfulIff(call: Call, flag: Option<Addr>, open: seq<Frame>)
    requires Faithful(Point(flag, open))
    ensures var r := Interp(call, flag, open);
            && (AllFaithful(r.points) <==> !NestsUpgrade(call, open != [], flag.Some?))
            && (!NestsUpgrade(call, open != [], flag.Some?) && r.after.Some? ==> r.after.value == flag)
    decreases call
  {
    var r := Interp(call, flag, open);
    match call
    case Plain(ok, subs) =>
      if ok {
        SubsFaithfulIff(subs, flag, open);
        AllFaithfulConcat([Point(flag, open)], InterpSubs(subs, flag, open).points);
      }
    case AdminExecute(authorized, target, ok, subs) =>
      if authorized && flag.None? {
        OpenFaithfulIff(AdminFrame(target), ok, subs);
      }
    case Upgrade(authorized, ok, subs) =>
      if authorized {
        if open == [] {
          OpenFaithfulIff(UpgradeFrame, ok, subs);
        } else {
          OpensFirst(UpgradeFrame, ok, subs, open);
          assert !Faithful(r.points[0]);
        }
      }
  }

  lemma OpensFirst(frame: Frame, ok: bool, subs: seq<Sub>, open: seq<Frame>)
    ensures var points := InterpOpen(frame, ok, subs, open).points;
            points != [] && points[0] == Point(Some(Stored(frame)), open + [frame])
  {}

  /** The same for a call that opens at the top of a transaction. */
  lemma {:induction false} OpenFaithfulIff(frame: Frame, ok: bool, subs: seq<Sub>)
    ensures AllFaithful(InterpOpen(frame, ok, subs, []).points) <==> !(ok && SubsNestUpgrade(subs, true, true))
    decreases subs, 1
  {
    var opening := Point(Some(Stored(frame)), [] + [frame]);
    assert Faithful(opening) && Faithful(Point(None, []));
    if ok {
      SubsFaithfulIff(subs, opening.flag, opening.open);
      var r := InterpSubs(subs, opening.flag, opening.open);
      AllFaithfulConcat([opening], r.points);
      AllFaithfulConcat([opening] + r.points, [Point(None, [])]);
    }
  }

  lemma {:induction false} SubsFaithfulIff(subs: seq<Sub>, flag: Option<Addr>, open: seq<Frame>)
    requires Faithful(Point(flag, open))
    ensures var r := InterpSubs(subs, flag, open);
            && (AllFaithful(r.points) <==> !SubsNestUpgrade(subs, open != [], flag.Some?))
            && (!SubsNestUpgrade(subs, open != [], flag.Some?) && r.after.Some? ==> r.after.value == flag)
    decreases subs, 0
  {
    if subs != [] {
      var head := Interp(subs[0].call, flag, open);
      assert subs[0].call < subs[0];
      FaithfulIff(subs[0].call, flag, open);
      LocksIsFlag(subs[0].call, flag, open);
      if head.after.Some? || subs[0].caught {
        var next := if head.after.Some? then head.after.value else flag;
        var rest := InterpSubs(subs[1..], next, open);
        AllFaithfulConcat(head.points, [Point(next, open)]);
        AllFaithfulConcat(head.points + [Point(next, open)], rest.points);
        if !NestsUpgrade(subs[0].call, open != [], flag.Some?) {
          SubsFaithfulIff(subs[1..], flag, open);
        }
      }
    }
  }

  /** At every point of a transaction the flag names the one open call, if and only if no upgrade is nested. */
  lemma TransactionFaithfulIff(call: Call)
    ensures AllFaithful(Interp(call, None, []).points) <==> !NestsUpgrade(call, false, false)
  {
    FaithfulIff(call, None, []);
  }

  // ------------------------------------------------------------------ no admin call inside another

  /** Some admin call is open inside another frame. */
  ghost predicate Chained(open: seq<Frame>) {
    exists i :: 1 <= i < |open| && open[i].AdminFrame?
  }

  ghost predicate NoneChained(points: seq<Point>) {
    forall p :: p in points ==> !Chained(p.open)
  }

  lemma NoneChainedConcat(a: seq<Point>, b: seq<Point>)
    ensures NoneChained(a + b) <==> NoneChained(a) && NoneChained(b)
  {
    if NoneChained(a + b) {
      assert forall p :: p in a ==> p in a + b;
      assert forall p :: p in b ==> p in a + b;
    }
  }

  lemma ChainedOpening(open: seq<Frame>, frame: Frame)
    requires !Chained(open)
    ensures Chained(open + [frame]) <==> open != [] && frame.AdminFrame?
  {
    if open != [] && frame.AdminFrame? {
      assert (open + [frame])[|open|].AdminFrame?;
    }
  }

  /** From any point: an admin call opens inside another frame if and only if the tree reaches one that is unlocked. */
  lemma {:induction false} ChainedIff(call: Call, flag: Option<Addr>, open: seq<Frame>)
    requires !Chained(open)
    ensures NoneChained(Interp(call, flag, open).points) <==> !NestsAdminCall(call, open != [], flag.Some?)
    decreases call
  {
    match call
    case Plain(ok, subs) =>
      if ok {
        SubsChainedIff(subs, flag, open);
        NoneChainedConcat([Point(flag, open)], InterpSubs(subs, flag, open).points);
      }
    case AdminExecute(authorized, target, ok, subs) =>
      if authorized && flag.None? {
        OpenChainedIff(AdminFrame(target), ok, subs, open);
      }
    case Upgrade(authorized, ok, subs) =>
      if authorized {
        OpenChainedIff(UpgradeFrame, ok, subs, open);
      }
  }

  lemma {:induction false} OpenChainedIff(frame: Frame, ok: bool, subs: seq<Sub>, open: seq<Frame>)
    requires !Chained(open)
    ensures NoneChained(InterpOpen(frame, ok, subs, open).points)
            <==> !((open != [] && frame.AdminFrame?) || (ok && SubsNestAdminCall(subs, true, true)))
    decreases subs, 1
  {
    var opening := Point(Some(Stored(frame)), open + [frame]);
    ChainedOpening(open, frame);
    OpensFirst(frame, ok, subs, open);
    if open != [] && frame.AdminFrame? {
      assert opening in InterpOpen(frame, ok, subs, open).points;
    } else if ok {
      SubsChainedIff(subs, opening.flag, opening.open);
      var r := InterpSubs(subs, opening.flag, opening.open);
      NoneChainedConcat([opening], r.points);
      NoneChainedConcat([opening] + r.points, [Point(None, open)]);
    }
  }

  lemma {:induction false} SubsChainedIff(subs: seq<Sub>, flag: Option<Addr>, open: seq<Frame>)
    requires !Chained(open)
    ensures NoneChained(InterpSubs(subs, flag, open).points) <==> !SubsNestAdminCall(subs, open != [], flag.Some?)
    decreases subs, 0
  {
    if subs != [] {
      var head := Interp(subs[0].call, flag, open);
      assert subs[0].call < subs[0];
      ChainedIff(subs[0].call, flag, open);
      LocksIsFlag(subs[0].call, flag, open);
      if head.after.Some? || subs[0].caught {
        var next := if head.after.Some? then head.after.value else flag;
        SubsChainedIff(subs[1..], next, open);
        NoneChainedConcat(head.points, [Point(next, open)]);
        NoneChainedConcat(head.points + [Point(next, open)], InterpSubs(subs[1..], next, open).points);
      }
    }
  }

  /** In a transaction no admin call opens inside another admin call or upgrade, exactly when the tree reaches none. */
  lemma TransactionChainedIff(call: Call)
    ensures NoneChained(Interp(call, None, []).points) <==> !NestsAdminCall(call, false, false)
  {
    ChainedIff(call, None, []);
  }

  /** Only a nested upgrade can have unlocked the account: without one, admin calls do not chain. */
  lemma ChainingNeedsNestedUpgrade(call: Call)
    ensures NestsAdminCall(call, false, false) ==> NestsUpgrade(call, false, false)
  {
    if !NestsUpgrade(call, false, false) {
      TransactionFaithfulIff(call);
      TransactionChainedIff(call);
      forall p | p in Interp(call, None, []).points
        ensures !Chained(p.open)
      {
        assert Faithful(p);
      }
    }
  }

  /** Inside an open call, the first message and then the others. */
  lemma FirstSub(sub: Sub, rest: seq<Sub>, locked: bool)
    ensures var after := Locks(sub.call, locked);
            && LocksSubs([sub] + rest, locked)
               == (if after.None? && !sub.caught then None else LocksSubs(rest, GetLock(after, locked)))
            && (SubsNestAdminCall([sub] + rest, true, locked) <==>
                  || NestsAdminCall(sub.call, true, locked)
                  || ((after.Some? || sub.caught) && SubsNestAdminCall(rest, true, GetLock(after, locked))))
            && (SubsNestUpgrade([sub] + rest, true, locked) <==>
                  || NestsUpgrade(sub.call, true, locked)
                  || ((after.Some? || sub.caught) && SubsNestUpgrade(rest, true, GetLock(after, locked))))
  {
    assert ([sub] + rest)[1..] == rest;
  }

  /**
   An upgrade inside an admin call clears the flag while that call is still open, and a second admin call then goes
   through inside the first. Without the second call the upgrade is nested but nothing is chained.
   */
  lemma UpgradeUnlocksNestedAdminCall(outer: Addr, inner: Addr)
    ensures var second := AdminExecute(true, inner, true, []);
            var blocked := AdminExecute(true, outer, true, [Sub(second, false)]);
            var alone := AdminExecute(true, outer, true, [Sub(Upgrade(true, true, []), false)]);
            var unlocked := AdminExecute(true, outer, true, [Sub(Upgrade(true, true, []), false), Sub(second, false)]);
            && Interp(blocked, None, []).after == None && NoneChained(Interp(blocked, None, []).points)
            && NestsUpgrade(alone, false, false) && NoneChained(Interp(alone, None, []).points)
            && Interp(unlocked, None, []).after == Some(None) && !NoneChained(Interp(unlocked, None, []).points)
  {
    var second, upgrade := AdminExecute(true, inner, true, []), Upgrade(true, true, []);
    var last, one, both := [Sub(second, false)], [Sub(upgrade, false)], [Sub(upgrade, false), Sub(second, false)];
    assert last == [Sub(second, false)] + [] && one == [Sub(upgrade, false)] + [] && both == [Sub(upgrade, false)] + last;
    FirstSub(Sub(second, false), [], true);
    FirstSub(Sub(second, false), [], false);
    FirstSub(Sub(upgrade, false), [], true);
    FirstSub(Sub(upgrade, false), last, true);
    assert Locks(second, true) == None && Locks(second, false) == Some(false) && Locks(upgrade, true) == Some(false);
    var blocked, alone := AdminExecute(true, outer, true, last), AdminExecute(true, outer, true, one);
    var unlocked := AdminExecute(true, outer, true, both);
    TransactionChainedIff(blocked);
    TransactionChainedIff(alone);
    TransactionChainedIff(unlocked);
    LocksIsFlag(blocked, None, []);
    LocksIsFlag(unlocked, None, []);
  }

  // ------------------------------------------------------------------ the contract

  lemma Regroup(a: seq<Point>, b: seq<Point>, c: seq<Point>, d: seq<Point>)
    ensures a + (b + c + d) == a + b + c + d
  {}

  /** The stored flag and the entry points that touch it, driven over a whole tree of calls. */
  class Gate {
    var callingToAsAdmin: Option<Addr>

    constructor ()
      ensures callingToAsAdmin == None
    {
      callingToAsAdmin := None;
    }

    /** `admin_execute` up to its sub-message. */
    method BeginAdminCall(authorized: bool, target: Addr) returns (ok: bool)
      modifies this
      ensures ok <==> authorized && old(callingToAsAdmin).None?
      ensures callingToAsAdmin == if ok then Some(target) else old(callingToAsAdmin)
    {
      if !authorized || callingToAsAdmin.Some? {
        return false;
      }
      callingToAsAdmin := Some(target);
      return true;
    }

    /** `admin_action_reply`, and the same line at the end of an upgrade. */
    method AdminActionReply()
      modifies this
      ensures callingToAsAdmin == None
    {
      callingToAsAdmin := None;
    }

    /** Runs a call, recording the points it passes; when it fails the stored flag is put back. */
    method Run(call: Call, ghost open: seq<Frame>) returns (ok: bool, ghost points: seq<Point>)
      modifies this
      ensures var r := Interp(call, old(callingToAsAdmin), open);
              && ok == r.after.Some?
              && callingToAsAdmin == (if r.after.Some? then r.after.value else old(callingToAsAdmin))
              && points == r.points
      decreases call, 1
    {
      var before := callingToAsAdmin;
      match call {
        case Plain(handled, subs) =>
          points := [Point(callingToAsAdmin, open)];
          ok := handled;
          if ok {
            ghost var passed;
            ok, passed := RunSubs(subs, open);
            points := points + passed;
          }
        case AdminExecute(authorized, target, handled, subs) =>
          points := [];
          ok := BeginAdminCall(authorized, target);
          if ok {
            ok, points := RunOpened(AdminFrame(target), handled, subs, open);
          }
        case Upgrade(authorized, handled, subs) =>
          points := [];
          ok := authorized;
          if ok {
            callingToAsAdmin := Some(CALLING_TO_AS_ADMIN_WILD_CARD);
            ok, points := RunOpened(UpgradeFrame, handled, subs, open);
          }
      }
      if !ok {
        callingToAsAdmin := before;
      }
    }

    /** The messages of an admin call or upgrade whose flag is stored, and its reply. */
    method RunOpened(ghost frame: Frame, handled: bool, subs: seq<Sub>, ghost open: seq<Frame>)
      returns (ok: bool, ghost points: seq<Point>)
      requires callingToAsAdmin == Some(Stored(frame))
      modifies this
      ensures var r := InterpOpen(frame, handled, subs, open);
              && ok == r.after.Some? && (ok ==> callingToAsAdmin == None)
              && points == r.points
      decreases subs, 1
    {
      points := [Point(callingToAsAdmin, open + [frame])];
      ok := handled;
      if ok {
        ghost var passed;
        ok, passed := RunSubs(subs, open + [frame]);
        points := points + passed;
      }
      if ok {
        AdminActionReply();
        points := points + [Point(callingToAsAdmin, open)];
      }
    }

    /** Runs messages in order; an uncaught failure stops, a caught one is skipped. */
    method RunSubs(subs: seq<Sub>, ghost open: seq<Frame>) returns (ok: bool, ghost points: seq<Point>)
      modifies this
      ensures var r := InterpSubs(subs, old(callingToAsAdmin), open);
              && ok == r.after.Some?
              && (r.after.Some? ==> callingToAsAdmin == r.after.value)
              && points == r.points
      decreases subs, 0
    {
      ghost var whole := InterpSubs(subs, callingToAsAdmin, open);
      points := [];
      for i := 0 to |subs|
        invariant InterpSubs(subs[i..], callingToAsAdmin, open).after == whole.after
        invariant points + InterpSubs(subs[i..], callingToAsAdmin, open).points == whole.points
      {
        assert subs[i..][1..] == subs[i + 1..] && subs[i] in subs;
        assert subs[i].call < subs[i];
        var done;
        ghost var passed;
        done, passed := Run(subs[i].call, open);
        ghost var rest := InterpSubs(subs[i + 1..], callingToAsAdmin, open).points;
        Regroup(points, passed, [Point(callingToAsAdmin, open)], rest);
        points := points + passed;
        if !done && !subs[i].caught {
          return false, points;
        }
        points := points + [Point(callingToAsAdmin, open)];
      }
      return true, points;
    }
  }
}
