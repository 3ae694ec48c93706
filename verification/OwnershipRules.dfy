/**
 What each action on accounts demands and does, read off the accounts and the registry: which messages are delivered, who
 owns an account afterwards, and what stays as it was.
 */
module OwnershipRules {
  import opened Basics
  import opened Cosmos
  import opened SubAccounts

  // ------------------------------------------------------------------ messages

  /** A message about the account of number n reaches its parent: the parent acts, and the sender has that number. */
  ghost predicate Reaches(c: Net, sender: Addr, to: Addr, n: nat) {
    && to in c.accounts && !c.accounts[to].suspended
    && Local(n) in c.registry && c.registry[Local(n)] == sender
  }

  /** Why a message that does not arrive is refused. */
  function WhyNot(c: Net, msg: Message): SubAccountError {
    if msg.to !in c.accounts then NoSuchContract
    else if c.accounts[msg.to].suspended then AccountSuspended
    else if msg.Register? then SubAccountRegisterFailed
    else if Local(msg.id) !in c.registry then SubAccountDoesntExist
    else SubAccountIsNotCaller
  }

  /** Delivery, its result and its errors. */
  lemma DeliverIff(c: Net, sender: Addr, msg: Message)
    ensures var r := Deliver(c, sender, msg);
            && (r.Ok? <==> Reaches(c, sender, msg.to, msg.id))
            && (r.Ok? ==>
                  r.value.accounts == c.accounts[msg.to := c.accounts[msg.to].(subAccounts :=
                    if msg.Register? then c.accounts[msg.to].subAccounts + {msg.id} else c.accounts[msg.to].subAccounts - {msg.id})]
                  && r.value.registry == c.registry && r.value.nextSeq == c.nextSeq)
            && (r.Err? ==> r.error == WhyNot(c, msg))
  {}

  /** The messages of a move arrive exactly when each parent concerned is reached. */
  lemma MoveIff(c: Net, sender: Addr, leave: Option<Addr>, join: Option<Addr>, n: nat)
    ensures DeliverAll(c, sender, MoveMessages(leave, join, n)).Ok? <==>
            && (leave.Some? ==> Reaches(c, sender, leave.value, n))
            && (join.Some? ==> Reaches(c, sender, join.value, n))
  {
    var msgs := MoveMessages(leave, join, n);
    if leave.Some? && join.Some? {
      assert msgs[0] == Unregister(leave.value, n) && msgs[1..] == [Register(join.value, n)];
      DeliverIff(c, sender, msgs[0]);
      if Deliver(c, sender, msgs[0]).Ok? {
        var next := Deliver(c, sender, msgs[0]).value;
        DeliverOne(next, sender, Register(join.value, n));
        DeliverIff(next, sender, Register(join.value, n));
      }
    } else if leave.Some? {
      assert msgs == [Unregister(leave.value, n)];
      DeliverOne(c, sender, msgs[0]);
      DeliverIff(c, sender, msgs[0]);
    } else if join.Some? {
      assert msgs == [Register(join.value, n)];
      DeliverOne(c, sender, msgs[0]);
      DeliverIff(c, sender, msgs[0]);
    } else {
      assert msgs == [];
    }
  }

  // ------------------------------------------------------------------ ownership

  /** The account exists and acts. */
  ghost predicate Acting(c: Net, on: Addr) {
    on in c.accounts && !c.accounts[on].suspended
  }

  /** The parent named by the owner, if it is an account, can be told. */
  ghost predicate Tells(c: Net, on: Addr, g: Governance) {
    on in c.accounts && (g.SubAccount? ==> Reaches(c, on, g.account, c.accounts[on].id.seqNr))
  }

  /** Apart from the lists of sub-accounts, nothing but the owner and the pending owner of one account changes. */
  ghost predicate OnlyOwnerOf(c: Net, d: Net, on: Addr) {
    && d.registry == c.registry && d.nextSeq == c.nextSeq && d.accounts.Keys == c.accounts.Keys
    && forall a :: a in c.accounts ==>
         && d.accounts[a].id == c.accounts[a].id && d.accounts[a].suspended == c.accounts[a].suspended
         && (a != on ==> d.accounts[a].owner == c.accounts[a].owner && d.accounts[a].pending == c.accounts[a].pending)
  }

  /**
   Ownership is accepted exactly when a transfer is pending and the old and the new parent, where there is one, can be told.
   The account then belongs to the pending owner, its number moves from the old parent's list to the new one's, and no
   other list changes.
   */
  lemma AcceptIff(c: Net, on: Addr)
    ensures Perform(c, AcceptOwnership(on)).Some? <==>
            && Acting(c, on) && c.accounts[on].pending.Some?
            && Tells(c, on, c.accounts[on].owner) && Tells(c, on, c.accounts[on].pending.value)
    ensures Perform(c, AcceptOwnership(on)).Some? ==>
              var d, a := Step(c, AcceptOwnership(on)), c.accounts[on];
              && OnlyOwnerOf(c, d, on)
              && d.accounts[on].owner == a.pending.value && d.accounts[on].pending == None
              && forall p, k :: p in c.accounts ==>
                   (k in d.accounts[p].subAccounts <==>
                      if k == a.id.seqNr && a.pending.value == SubAccount(p) then true
                      else if k == a.id.seqNr && a.owner == SubAccount(p) then false
                      else k in c.accounts[p].subAccounts)
  {
    if Acting(c, on) && c.accounts[on].pending.Some? {
      var a := c.accounts[on];
      var mid := c.(accounts := c.accounts[on := a.(owner := a.pending.value, pending := None)]);
      var leave, join := ParentOf(a.owner), ParentOf(a.pending.value);
      MoveIff(mid, on, leave, join, a.id.seqNr);
      if DeliverAll(mid, on, MoveMessages(leave, join, a.id.seqNr)).Ok? {
        MessagesMove(mid, on, leave, join, a.id.seqNr);
      }
    }
  }

  /**
   Ownership is renounced exactly when the account has no sub-accounts and its parent, if there is one, can be told.
   Nobody owns it afterwards, and its number is gone from the parent's list.
   */
  lemma RenounceIff(c: Net, on: Addr)
    ensures Perform(c, RenounceOwnership(on)).Some? <==>
            Acting(c, on) && c.accounts[on].subAccounts == {} && Tells(c, on, c.accounts[on].owner)
    ensures Perform(c, RenounceOwnership(on)).Some? ==>
              var d, a := Step(c, RenounceOwnership(on)), c.accounts[on];
              && OnlyOwnerOf(c, d, on)
              && d.accounts[on].owner == Renounced && d.accounts[on].pending == None
              && forall p, k :: p in c.accounts ==>
                   (k in d.accounts[p].subAccounts <==>
                      k in c.accounts[p].subAccounts && !(k == a.id.seqNr && a.owner == SubAccount(p)))
  {
    if Acting(c, on) && c.accounts[on].subAccounts == {} {
      var a := c.accounts[on];
      var mid := c.(accounts := c.accounts[on := a.(owner := Renounced, pending := None)]);
      MoveIff(mid, on, ParentOf(a.owner), None, a.id.seqNr);
      if DeliverAll(mid, on, MoveMessages(ParentOf(a.owner), None, a.id.seqNr)).Ok? {
        MessagesMove(mid, on, ParentOf(a.owner), None, a.id.seqNr);
      }
    }
  }

  /** The account is one that the registry knows under its own id. */
  ghost predicate Known(c: Net, p: Addr) {
    p in c.accounts && c.accounts[p].id in c.registry && c.registry[c.accounts[p].id] == p
  }

  /** A transfer can be proposed to anybody but nobody, and to accounts that are known; it changes the pending owner only. */
  lemma TransferIff(c: Net, on: Addr, g: Governance)
    ensures Perform(c, TransferOwnership(on, g)).Some? <==>
            Acting(c, on) && g != Renounced && (g.SubAccount? ==> Known(c, g.account))
    ensures Perform(c, TransferOwnership(on, g)).Some? ==>
              Step(c, TransferOwnership(on, g)) == c.(accounts := c.accounts[on := c.accounts[on].(pending := Some(g))])
  {}

  /** Suspending and resuming work on every account, suspended or not, and change nothing else. */
  lemma StatusIff(c: Net, on: Addr, suspend: bool)
    ensures Perform(c, UpdateStatus(on, suspend)).Some? <==> on in c.accounts
    ensures on in c.accounts ==>
              Step(c, UpdateStatus(on, suspend)) == c.(accounts := c.accounts[on := c.accounts[on].(suspended := suspend)])
  {}

  /** A raw message is delivered exactly when its sender acts and it reaches the receiver. */
  lemma RawIff(c: Net, on: Addr, msg: Message)
    ensures Perform(c, ExecuteRaw(on, msg)).Some? <==> Acting(c, on) && Reaches(c, on, msg.to, msg.id)
  {
    DeliverIff(c, on, msg);
  }

  // ------------------------------------------------------------------ creation

  /** The id is free, and a number below 2^31 is the next one. */
  ghost predicate Free(c: Net, id: AccountId) {
    id !in c.registry && (id.Local? && id.seqNr < 0x8000_0000 ==> id.seqNr == c.nextSeq)
  }

  /**
   An account is created exactly at a free address and id, and with a parent only by that parent, which must be known and
   act and can only have local children. It starts empty; the registry and, for numbers in sequence, the counter follow, and
   the parent lists it.
   */
  lemma CreateIff(c: Net, addr: Addr, id: AccountId, owner: Governance, sender: Addr)
    requires Registered(c)
    ensures var r := Perform(c, Instantiate(addr, id, owner, sender));
            && (r.Some? <==>
                  && addr !in c.accounts && Free(c, id)
                  && (owner.SubAccount? ==>
                        owner.account == sender && Known(c, sender) && !c.accounts[sender].suspended && id.Local?))
            && (r.Some? ==>
                  && r.value.registry == c.registry[id := addr]
                  && r.value.nextSeq == (if id.Local? && id.seqNr < 0x8000_0000 then c.nextSeq + 1 else c.nextSeq)
                  && r.value.accounts.Keys == c.accounts.Keys + {addr}
                  && r.value.accounts[addr] == AccountState(id, owner, None, {}, false)
                  && forall a :: a in c.accounts ==>
                       r.value.accounts[a] == c.accounts[a].(subAccounts :=
                         c.accounts[a].subAccounts + (if owner == SubAccount(a) then {id.seqNr} else {})))
  {
    var next := if id.Local? && id.seqNr < 0x8000_0000 then c.nextSeq + 1 else c.nextSeq;
    var added := Net(c.accounts[addr := AccountState(id, owner, None, {}, false)], c.registry[id := addr], next);
    if owner.SubAccount? {
      DeliverIff(added, addr, Register(owner.account, id.seqNr));
    }
    forall a | a in c.accounts
      ensures c.accounts[a] == c.accounts[a].(subAccounts := c.accounts[a].subAccounts + {})
    {}
  }

  /** A sub-account is created by an acting parent, under the number asked for or the next one. */
  lemma CreateSubIff(c: Net, parent: Addr, addr: Addr, seqNr: Option<nat>)
    ensures var id := Local(if seqNr.Some? then seqNr.value else c.nextSeq);
            Perform(c, CreateSubAccount(parent, addr, seqNr))
            == if Acting(c, parent) then Perform(c, Instantiate(addr, id, SubAccount(parent), parent)) else None
  {}

  /** An action that does not go through changes nothing. */
  lemma RefusedChangesNothing(c: Net, action: Action)
    ensures Perform(c, action).None? ==> Step(c, action) == c
  {}
}
