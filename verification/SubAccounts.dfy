/**
 Parents and sub-accounts. Each account stores its owner and the sequences of its sub-accounts; messages
 between the accounts keep the two sides in agreement when ownership is created, moved or given up.
 */
module SubAccounts {
  import opened Basics
  import opened Cosmos

  /** Local accounts are numbered on this chain; remote ones were created over IBC. */
  datatype AccountId = Local(seqNr: nat) | Remote(trace: string, seqNr: nat)

  datatype Governance =
    | Monarchy(monarch: Addr)
    | SubAccount(account: Addr)
    | External(governanceAddress: Addr, governanceType: string)
    | Nft(collection: Addr, tokenId: string)
    | AbstractAccount(address: Addr)
    | Renounced

  datatype AccountState = AccountState(id: AccountId, owner: Governance, pending: Option<Governance>,
                                       subAccounts: set<nat>, suspended: bool)

  datatype Message = Register(to: Addr, id: nat) | Unregister(to: Addr, id: nat)

  datatype SubAccountError =
    | SubAccountDoesntExist
    | SubAccountIsNotCaller
    | SubAccountRegisterFailed
    | RenounceWithSubAccount
    | TransferNotFound
    | AccountSuspended
    | NoSuchContract

  /** All account contracts, the registry's addresses by id, and the next sequence it will hand out. */
  datatype Net = Net(accounts: map<Addr, AccountState>, registry: map<AccountId, Addr>, nextSeq: nat)

  // ------------------------------------------------------------------ the contract's handlers

  function RegisterSubAccount(subs: set<nat>, registry: map<AccountId, Addr>, sender: Addr, id: nat)
    : Result<set<nat>, SubAccountError>
  {
    if Local(id) in registry && registry[Local(id)] == sender then Ok(subs + {id})
    else Err(SubAccountRegisterFailed)
  }

  function UnregisterSubAccount(subs: set<nat>, registry: map<AccountId, Addr>, sender: Addr, id: nat)
    : Result<set<nat>, SubAccountError>
  {
    if Local(id) !in registry then Err(SubAccountDoesntExist)
    else if registry[Local(id)] == sender then Ok(subs - {id})
    else Err(SubAccountIsNotCaller)
  }

  /** The parent account named by a governance structure. */
  function ParentOf(g: Governance): Option<Addr> {
    if g.SubAccount? then Some(g.account) else None
  }

  /** The messages an account with number n sends to leave one parent and join another. */
  function MoveMessages(leave: Option<Addr>, join: Option<Addr>, n: nat): seq<Message> {
    (if leave.Some? then [Unregister(leave.value, n)] else []) + (if join.Some? then [Register(join.value, n)] else [])
  }

  /** `maybe_update_sub_account_governance`: leave the old parent, join the new one. */
  function GovernanceMessages(a: AccountState): Result<seq<Message>, SubAccountError> {
    if a.pending.None? then Err(TransferNotFound)
    else Ok(MoveMessages(ParentOf(a.owner), ParentOf(a.pending.value), a.id.seqNr))
  }

  /** `remove_account_from_contracts`, without the namespace message to the registry. */
  function RenounceMessages(a: AccountState): Result<seq<Message>, SubAccountError> {
    if a.subAccounts != {} then Err(RenounceWithSubAccount)
    else Ok(MoveMessages(ParentOf(a.owner), None, a.id.seqNr))
  }

  // ------------------------------------------------------------------ delivery

  function Deliver(c: Net, sender: Addr, msg: Message): Result<Net, SubAccountError> {
    if msg.to !in c.accounts then Err(NoSuchContract)
    else if c.accounts[msg.to].suspended then Err(AccountSuspended)
    else
      var a := c.accounts[msg.to];
      match (if msg.Register? then RegisterSubAccount(a.subAccounts, c.registry, sender, msg.id)
             else UnregisterSubAccount(a.subAccounts, c.registry, sender, msg.id))
      case Err(e) => Err(e)
      case Ok(subs) => Ok(c.(accounts := c.accounts[msg.to := a.(subAccounts := subs)]))
  }

  function DeliverAll(c: Net, sender: Addr, msgs: seq<Message>): Result<Net, SubAccountError>
    decreases msgs
  {
    if msgs == [] then Ok(c)
    else match Deliver(c, sender, msgs[0])
      case Err(e) => Err(e)
      case Ok(next) => DeliverAll(next, sender, msgs[1..])
  }

  // ------------------------------------------------------------------ transactions

  datatype Action =
    | Instantiate(addr: Addr, id: AccountId, owner: Governance, sender: Addr)
    | CreateSubAccount(parent: Addr, addr: Addr, seqNr: Option<nat>)
    | TransferOwnership(on: Addr, newOwner: Governance)
    | AcceptOwnership(on: Addr)
    | RenounceOwnership(on: Addr)
    | UpdateStatus(on: Addr, suspend: bool)
    | ExecuteRaw(on: Addr, msg: Message)

  /** Sequences from here on may be claimed in any order. */
  const PREDICTABLE_FROM: nat := 2147483648

  /** Governance verification: a parent must be an account the registry knows under its own id. */
  predicate Verified(c: Net, g: Governance) {
    g.SubAccount? ==>
      && g.account in c.accounts
      && c.accounts[g.account].id in c.registry
      && c.registry[c.accounts[g.account].id] == g.account
  }

  /** The registry's `AddAccount` accepts the id. */
  predicate Claimable(c: Net, id: AccountId) {
    id !in c.registry && (id.Local? && id.seqNr < PREDICTABLE_FROM ==> id.seqNr == c.nextSeq)
  }

  /** A new account: its own storage, then the registry's entry, then registration with its parent. */
  function Create(c: Net, addr: Addr, id: AccountId, owner: Governance, sender: Addr): Option<Net> {
    if addr in c.accounts || !Verified(c, owner) || !Claimable(c, id) || (owner.SubAccount? && owner.account != sender) then None
    else
      var added := Net(c.accounts[addr := AccountState(id, owner, None, {}, false)],
                       c.registry[id := addr],
                       if id.Local? && id.seqNr < PREDICTABLE_FROM then c.nextSeq + 1 else c.nextSeq);
      if owner.SubAccount? then
        match Deliver(added, addr, Register(owner.account, id.seqNr))
        case Err(_) => None
        case Ok(done) => Some(done)
      else Some(added)
  }

  /** The part of a transaction at the account itself, and the messages it then sends. */
  function OwnershipChange(a: AccountState, accept: bool): Result<(AccountState, seq<Message>), SubAccountError> {
    if accept then
      match GovernanceMessages(a)
      case Err(e) => Err(e)
      case Ok(msgs) => Ok((a.(owner := a.pending.value, pending := None), msgs))
    else
      match RenounceMessages(a)
      case Err(e) => Err(e)
      case Ok(msgs) => Ok((a.(owner := Renounced, pending := None), msgs))
  }

  function ChangeOwnership(c: Net, on: Addr, accept: bool): Option<Net> {
    if on !in c.accounts || c.accounts[on].suspended then None
    else match OwnershipChange(c.accounts[on], accept)
      case Err(_) => None
      case Ok((a, msgs)) =>
        match DeliverAll(c.(accounts := c.accounts[on := a]), on, msgs)
        case Err(_) => None
        case Ok(done) => Some(done)
  }

  /** The result of an action when it goes through; None when the chain rolls it back. */
  function Perform(c: Net, action: Action): Option<Net> {
    match action
    case Instantiate(addr, id, owner, sender) => Create(c, addr, id, owner, sender)
    case CreateSubAccount(parent, addr, seqNr) =>
      if parent !in c.accounts || c.accounts[parent].suspended then None
      else Create(c, addr, Local(if seqNr.Some? then seqNr.value else c.nextSeq), SubAccount(parent), parent)
    case TransferOwnership(on, newOwner) =>
      if on !in c.accounts || c.accounts[on].suspended || !Verified(c, newOwner) || newOwner.Renounced? then None
      else Some(c.(accounts := c.accounts[on := c.accounts[on].(pending := Some(newOwner))]))
    case AcceptOwnership(on) => ChangeOwnership(c, on, true)
    case RenounceOwnership(on) => ChangeOwnership(c, on, false)
    case UpdateStatus(on, suspend) =>
      if on !in c.accounts then None
      else Some(c.(accounts := c.accounts[on := c.accounts[on].(suspended := suspend)]))
    case ExecuteRaw(on, msg) =>
      if on !in c.accounts || c.accounts[on].suspended then None
      else match Deliver(c, on, msg)
        case Err(_) => None
        case Ok(done) => Some(done)
  }

  function Step(c: Net, action: Action): Net {
    match Perform(c, action)
    case None => c
    case Some(done) => done
  }

  function Run(c: Net, actions: seq<Action>): Net
    decreases actions
  {
    if actions == [] then c else Run(Step(c, actions[0]), actions[1..])
  }

  // ------------------------------------------------------------------ agreement

  /** Accounts and registry entries correspond one to one, and parents exist. */
  ghost predicate Registered(c: Net) {
    && (forall a :: a in c.accounts ==> c.accounts[a].id in c.registry && c.registry[c.accounts[a].id] == a)
    && (forall id :: id in c.registry ==> c.registry[id] in c.accounts && c.accounts[c.registry[id]].id == id)
    && (forall a :: a in c.accounts ==> Verified(c, c.accounts[a].owner))
  }

  ghost predicate OwnedBy(c: Net, n: nat, p: Addr) {
    Local(n) in c.registry && c.registry[Local(n)] in c.accounts && c.accounts[c.registry[Local(n)]].owner == SubAccount(p)
  }

  /** A parent lists a sequence exactly when the local account of that number is owned by it. */
  ghost predicate Agree(c: Net) {
    && (forall p, n :: p in c.accounts ==> (n in c.accounts[p].subAccounts <==> OwnedBy(c, n, p)))
    && (forall a :: a in c.accounts && c.accounts[a].owner.SubAccount? ==> c.accounts[a].id.Local?)
  }

  ghost predicate Valid(c: Net) {
    Registered(c) && Agree(c)
  }

  /** The two sides of a pair of accounts. */
  lemma AgreementIff(c: Net, a: Addr, p: Addr)
    requires Valid(c) && a in c.accounts && p in c.accounts
    ensures c.accounts[a].owner == SubAccount(p) <==>
            c.accounts[a].id.Local? && c.accounts[a].id.seqNr in c.accounts[p].subAccounts
  {
    if c.accounts[a].id.Local? {
      assert c.accounts[a].id == Local(c.accounts[a].id.seqNr);
      assert c.accounts[a].id.seqNr in c.accounts[p].subAccounts <==> OwnedBy(c, c.accounts[a].id.seqNr, p);
    }
  }

  /** What one delivered message changes: one number at one account, sent by the account of that number. */
  lemma DeliverEffect(c: Net, sender: Addr, msg: Message)
    requires Deliver(c, sender, msg).Ok?
    ensures var d := Deliver(c, sender, msg).value;
            && d.registry == c.registry && d.nextSeq == c.nextSeq && d.accounts.Keys == c.accounts.Keys
            && msg.to in c.accounts
            && Local(msg.id) in c.registry && c.registry[Local(msg.id)] == sender
            && (forall a :: a in c.accounts ==>
                  d.accounts[a] == c.accounts[a].(subAccounts := d.accounts[a].subAccounts))
            && (forall a, n :: a in c.accounts ==>
                  (n in d.accounts[a].subAccounts <==>
                     if a == msg.to && n == msg.id then msg.Register? else n in c.accounts[a].subAccounts))
  {}

  /** A message leaves agreement to its sender's own entry: the others are as they were. */
  ghost predicate AgreeExcept(c: Net, sender: Addr) {
    forall p, n :: p in c.accounts && !(Local(n) in c.registry && c.registry[Local(n)] == sender) ==>
      (n in c.accounts[p].subAccounts <==> OwnedBy(c, n, p))
  }

  /** The parents that list the given account. */
  ghost predicate ListedAt(c: Net, a: Addr, p: Addr) {
    a in c.accounts && p in c.accounts && c.accounts[a].id.Local? && c.accounts[a].id.seqNr in c.accounts[p].subAccounts
  }

  /** Agreement, account by account: others agree, and the sender is listed exactly at its parent. */
  lemma AgreeByAccount(c: Net, sender: Addr)
    requires Registered(c) && sender in c.accounts
    requires AgreeExcept(c, sender)
    requires forall p :: p in c.accounts ==> (ListedAt(c, sender, p) <==> c.accounts[sender].owner == SubAccount(p))
    requires forall a :: a in c.accounts && a != sender && c.accounts[a].owner.SubAccount? ==> c.accounts[a].id.Local?
    ensures Agree(c)
  {
    forall p, n | p in c.accounts
      ensures n in c.accounts[p].subAccounts <==> OwnedBy(c, n, p)
    {
      if Local(n) in c.registry && c.registry[Local(n)] == sender {
        assert c.accounts[sender].id == Local(n);
        assert ListedAt(c, sender, p) <==> c.accounts[sender].owner == SubAccount(p);
      }
    }
    if c.accounts[sender].owner.SubAccount? {
      var p := c.accounts[sender].owner.account;
      assert Verified(c, c.accounts[sender].owner);
      assert ListedAt(c, sender, p);
    }
  }

  lemma CreateKeepsValid(c: Net, addr: Addr, id: AccountId, owner: Governance, sender: Addr)
    requires Valid(c) && Create(c, addr, id, owner, sender).Some?
    ensures Valid(Create(c, addr, id, owner, sender).value)
  {
    var done := Create(c, addr, id, owner, sender).value;
    var added := Net(c.accounts[addr := AccountState(id, owner, None, {}, false)], c.registry[id := addr], done.nextSeq);
    forall a | a in c.accounts
      ensures c.accounts[a].owner != SubAccount(addr)
    {
      assert Verified(c, c.accounts[a].owner);
    }
    forall p, n | p in added.accounts && !(Local(n) in added.registry && added.registry[Local(n)] == addr)
      ensures n in added.accounts[p].subAccounts <==> OwnedBy(added, n, p)
    {
      if p != addr {
        assert OwnedBy(added, n, p) <==> OwnedBy(c, n, p);
      }
    }
    forall p | p in added.accounts
      ensures !ListedAt(added, addr, p)
    {
      if p != addr && id.Local? {
        assert !OwnedBy(c, id.seqNr, p);
      }
    }
    assert Registered(added) by {
      forall a | a in added.accounts
        ensures Verified(added, added.accounts[a].owner)
      {
        assert a != addr ==> Verified(c, c.accounts[a].owner);
      }
    }
    if owner.SubAccount? {
      DeliverEffect(added, addr, Register(owner.account, id.seqNr));
      assert done == Deliver(added, addr, Register(owner.account, id.seqNr)).value;
      AfterDelivery(added, done);
      DeliveredExcept(added, done, addr);
      AgreeByAccount(done, addr);
    } else {
      AgreeByAccount(added, addr);
    }
  }

  /** Deliveries keep the registry side intact. */
  lemma AfterDelivery(c: Net, d: Net)
    requires Registered(c)
    requires d.registry == c.registry && d.accounts.Keys == c.accounts.Keys
    requires forall a :: a in c.accounts ==> d.accounts[a] == c.accounts[a].(subAccounts := d.accounts[a].subAccounts)
    ensures Registered(d)
  {
    forall a | a in d.accounts
      ensures Verified(d, d.accounts[a].owner)
    {
      assert Verified(c, c.accounts[a].owner);
    }
  }

  lemma DeliveredExcept(c: Net, d: Net, sender: Addr)
    requires AgreeExcept(c, sender)
    requires d.registry == c.registry && d.accounts.Keys == c.accounts.Keys
    requires forall a :: a in c.accounts ==> d.accounts[a] == c.accounts[a].(subAccounts := d.accounts[a].subAccounts)
    requires forall a, n :: a in c.accounts && !(Local(n) in c.registry && c.registry[Local(n)] == sender) ==>
               (n in d.accounts[a].subAccounts <==> n in c.accounts[a].subAccounts)
    ensures AgreeExcept(d, sender)
  {
    forall p, n | p in d.accounts && !(Local(n) in d.registry && d.registry[Local(n)] == sender)
      ensures n in d.accounts[p].subAccounts <==> OwnedBy(d, n, p)
    {
      assert OwnedBy(d, n, p) <==> OwnedBy(c, n, p);
    }
  }

  lemma DeliverOne(c: Net, sender: Addr, msg: Message)
    ensures DeliverAll(c, sender, [msg]) == Deliver(c, sender, msg)
  {
    assert [msg][1..] == [];
  }

  /** Leaving the old parent and joining the new one, even when they are the same account. */
  lemma MessagesMove(c: Net, sender: Addr, leave: Option<Addr>, join: Option<Addr>, n: nat)
    requires DeliverAll(c, sender, MoveMessages(leave, join, n)).Ok?
    ensures var d := DeliverAll(c, sender, MoveMessages(leave, join, n)).value;
            && d.registry == c.registry && d.nextSeq == c.nextSeq && d.accounts.Keys == c.accounts.Keys
            && (leave.Some? || join.Some? ==> Local(n) in c.registry && c.registry[Local(n)] == sender)
            && (forall a :: a in c.accounts ==> d.accounts[a] == c.accounts[a].(subAccounts := d.accounts[a].subAccounts))
            && (forall a, k :: a in c.accounts ==>
                  (k in d.accounts[a].subAccounts <==>
                     if k == n && join == Some(a) then true
                     else if k == n && leave == Some(a) then false
                     else k in c.accounts[a].subAccounts))
  {
    var msgs := MoveMessages(leave, join, n);
    if leave.Some? && join.Some? {
      assert msgs[1..] == [Register(join.value, n)];
      var next := Deliver(c, sender, msgs[0]).value;
      DeliverEffect(c, sender, msgs[0]);
      DeliverOne(next, sender, Register(join.value, n));
      DeliverEffect(next, sender, Register(join.value, n));
    } else if leave.Some? {
      assert msgs == [Unregister(leave.value, n)];
      DeliverOne(c, sender, msgs[0]);
      DeliverEffect(c, sender, msgs[0]);
    } else if join.Some? {
      assert msgs == [Register(join.value, n)];
      DeliverOne(c, sender, msgs[0]);
      DeliverEffect(c, sender, msgs[0]);
    } else {
      assert msgs == [];
    }
  }

  /** The account's own part of an ownership change keeps the registry side and the other accounts' entries. */
  lemma OwnChange(c: Net, on: Addr, changed: AccountState)
    requires Valid(c) && on in c.accounts
    requires changed == c.accounts[on].(owner := changed.owner, pending := None) && Verified(c, changed.owner)
    ensures var mid := c.(accounts := c.accounts[on := changed]);
            Registered(mid) && AgreeExcept(mid, on)
  {
    var mid := c.(accounts := c.accounts[on := changed]);
    forall b | b in mid.accounts
      ensures Verified(mid, mid.accounts[b].owner)
    {
      assert Verified(c, c.accounts[b].owner);
    }
    MidExcept(c, mid, on);
  }

  lemma OwnershipKeepsValid(c: Net, on: Addr, accept: bool)
    requires Valid(c) && ChangeOwnership(c, on, accept).Some?
    requires accept && c.accounts[on].pending.Some? ==> Verified(c, c.accounts[on].pending.value)
    ensures Valid(ChangeOwnership(c, on, accept).value)
  {
    var a := c.accounts[on];
    var changed := OwnershipChange(a, accept).value.0;
    var mid := c.(accounts := c.accounts[on := changed]);
    var leave, join, n := ParentOf(a.owner), ParentOf(changed.owner), a.id.seqNr;
    assert OwnershipChange(a, accept).value.1 == MoveMessages(leave, join, n);
    MessagesMove(mid, on, leave, join, n);
    var done := DeliverAll(mid, on, MoveMessages(leave, join, n)).value;
    OwnChange(c, on, changed);
    AfterDelivery(mid, done);
    DeliveredExcept(mid, done, on);
    forall p | p in done.accounts
      ensures ListedAt(done, on, p) <==> done.accounts[on].owner == SubAccount(p)
    {
      AgreementIff(c, on, p);
      if leave.Some? || join.Some? {
        assert c.accounts[on].id == Local(n);
      }
    }
    AgreeByAccount(done, on);
  }

  lemma MidExcept(c: Net, mid: Net, on: Addr)
    requires Agree(c) && on in c.accounts
    requires mid.registry == c.registry && mid.accounts.Keys == c.accounts.Keys
    requires forall a :: a in c.accounts && a != on ==> mid.accounts[a] == c.accounts[a]
    requires mid.accounts[on].subAccounts == c.accounts[on].subAccounts
    ensures AgreeExcept(mid, on)
  {
    forall p, n | p in mid.accounts && !(Local(n) in mid.registry && mid.registry[Local(n)] == on)
      ensures n in mid.accounts[p].subAccounts <==> OwnedBy(mid, n, p)
    {
      assert n in c.accounts[p].subAccounts <==> OwnedBy(c, n, p);
    }
  }

  /** A raw message is harmless exactly when it says what is already so. */
  ghost predicate Truthful(c: Net, on: Addr, msg: Message) {
    on in c.accounts && (msg.Register? <==> c.accounts[on].owner == SubAccount(msg.to))
  }

  /**
   Nothing stops an account from sending a register or unregister message for itself to any account.
   Such a message, when delivered, preserves agreement if and only if it is truthful.
   */
  lemma RawMessageIff(c: Net, on: Addr, msg: Message)
    requires Valid(c) && Perform(c, ExecuteRaw(on, msg)).Some?
    ensures Valid(Step(c, ExecuteRaw(on, msg))) <==> Truthful(c, on, msg)
  {
    DeliverEffect(c, on, msg);
    var d := Step(c, ExecuteRaw(on, msg));
    AfterDelivery(c, d);
    assert c.accounts[on].id == Local(msg.id);
    AgreementIff(c, on, msg.to);
    if Valid(d) {
      AgreementIff(d, on, msg.to);
    }
    if Truthful(c, on, msg) {
      forall p, n | p in d.accounts
        ensures n in d.accounts[p].subAccounts <==> OwnedBy(d, n, p)
      {
        assert n in c.accounts[p].subAccounts <==> OwnedBy(c, n, p);
        assert OwnedBy(d, n, p) <==> OwnedBy(c, n, p);
      }
    }
  }

  const TWO_ACCOUNTS :=
    Net(map["first" := AccountState(Local(0), Monarchy("owner"), None, {}, false),
            "second" := AccountState(Local(1), Monarchy("other"), None, {}, false)],
        map[Local(0) := "first", Local(1) := "second"], 2)

  lemma TwoAccountsValid()
    ensures Valid(TWO_ACCOUNTS) && PendingVerified(TWO_ACCOUNTS)
  {
    var c := TWO_ACCOUNTS;
    assert "first"[0] != "second"[0];
    assert c.accounts.Keys == {"first", "second"} && c.registry.Keys == {Local(0), Local(1)};
    forall a | a in c.accounts
      ensures c.accounts[a].id in c.registry && c.registry[c.accounts[a].id] == a
      ensures c.accounts[a].owner.Monarchy? && c.accounts[a].subAccounts == {} && c.accounts[a].pending.None?
    {
      assert a == "first" || a == "second";
    }
  }

  /** An account registers itself with one that is not its owner: they disagree, and that one can no longer renounce. */
  lemma RawRegisterBlocksRenounce(c: Net, on: Addr, to: Addr, n: nat)
    requires Valid(c) && on in c.accounts && to in c.accounts
    requires c.accounts[on].id == Local(n) && c.accounts[on].owner != SubAccount(to)
    requires !c.accounts[on].suspended && !c.accounts[to].suspended
    ensures var d := Step(c, ExecuteRaw(on, Register(to, n)));
            !Valid(d) && Perform(d, RenounceOwnership(to)).None?
  {
    var msg := Register(to, n);
    assert Perform(c, ExecuteRaw(on, msg)).Some?;
    RawMessageIff(c, on, msg);
    DeliverEffect(c, on, msg);
    var d := Step(c, ExecuteRaw(on, msg));
    assert n in d.accounts[to].subAccounts;
  }

  /** On two independent accounts, one message of the first takes from the second what it could do before. */
  lemma RawRegisterBreaksAgreement()
    ensures Valid(TWO_ACCOUNTS) && Perform(TWO_ACCOUNTS, RenounceOwnership("second")).Some?
    ensures var d := Step(TWO_ACCOUNTS, ExecuteRaw("first", Register("second", 0)));
            !Valid(d) && Perform(d, RenounceOwnership("second")).None?
  {
    TwoAccountsValid();
    assert "first"[0] != "second"[0];
    RawRegisterBlocksRenounce(TWO_ACCOUNTS, "first", "second", 0);
  }

  /** Accounts stay verified as parents: addresses and ids are never given up. */
  ghost predicate PendingVerified(c: Net) {
    forall a :: a in c.accounts && c.accounts[a].pending.Some? ==> Verified(c, c.accounts[a].pending.value)
  }

  ghost predicate Grows(c: Net, d: Net) {
    && (forall a :: a in c.accounts ==> a in d.accounts && d.accounts[a].id == c.accounts[a].id)
    && (forall id :: id in c.registry ==> id in d.registry && d.registry[id] == c.registry[id])
  }

  lemma VerifiedGrows(c: Net, d: Net, g: Governance)
    requires Grows(c, d) && Verified(c, g)
    ensures Verified(d, g)
  {}

  /** Every action but a raw message keeps validity; a raw message does when it is truthful. */
  lemma StepKeepsValid(c: Net, action: Action)
    requires Valid(c) && PendingVerified(c)
    requires action.ExecuteRaw? && Perform(c, action).Some? ==> Truthful(c, action.on, action.msg)
    ensures Valid(Step(c, action)) && PendingVerified(Step(c, action))
  {
    var d := Step(c, action);
    if Perform(c, action).Some? {
      match action {
        case Instantiate(addr, id, owner, sender) =>
          CreateKeepsValid(c, addr, id, owner, sender);
          CreatePending(c, addr, id, owner, sender);
        case CreateSubAccount(parent, addr, seqNr) =>
          var id := Local(if seqNr.Some? then seqNr.value else c.nextSeq);
          CreateKeepsValid(c, addr, id, SubAccount(parent), parent);
          CreatePending(c, addr, id, SubAccount(parent), parent);
        case TransferOwnership(on, newOwner) =>
          ShallowChange(c, d, on);
        case AcceptOwnership(on) =>
          OwnershipKeepsValid(c, on, true);
          OwnershipPending(c, on, true);
        case RenounceOwnership(on) =>
          OwnershipKeepsValid(c, on, false);
          OwnershipPending(c, on, false);
        case UpdateStatus(on, suspend) =>
          ShallowChange(c, d, on);
        case ExecuteRaw(on, msg) =>
          RawMessageIff(c, on, msg);
          DeliverEffect(c, on, msg);
          forall a | a in d.accounts && d.accounts[a].pending.Some?
            ensures Verified(d, d.accounts[a].pending.value)
          {
            VerifiedGrows(c, d, c.accounts[a].pending.value);
          }
      }
    }
  }

  lemma CreatePending(c: Net, addr: Addr, id: AccountId, owner: Governance, sender: Addr)
    requires PendingVerified(c) && Create(c, addr, id, owner, sender).Some?
    ensures PendingVerified(Create(c, addr, id, owner, sender).value)
  {
    var d := Create(c, addr, id, owner, sender).value;
    var added := Net(c.accounts[addr := AccountState(id, owner, None, {}, false)], c.registry[id := addr], d.nextSeq);
    if owner.SubAccount? {
      DeliverEffect(added, addr, Register(owner.account, id.seqNr));
    }
    forall a | a in d.accounts && d.accounts[a].pending.Some?
      ensures Verified(d, d.accounts[a].pending.value)
    {
      assert a != addr && Verified(c, c.accounts[a].pending.value);
      VerifiedGrows(c, d, c.accounts[a].pending.value);
    }
  }

  lemma OwnershipPending(c: Net, on: Addr, accept: bool)
    requires PendingVerified(c) && ChangeOwnership(c, on, accept).Some?
    ensures PendingVerified(ChangeOwnership(c, on, accept).value)
  {
    var a := c.accounts[on];
    var changed := OwnershipChange(a, accept).value.0;
    var mid := c.(accounts := c.accounts[on := changed]);
    var leave, join := ParentOf(a.owner), ParentOf(changed.owner);
    assert OwnershipChange(a, accept).value.1 == MoveMessages(leave, join, a.id.seqNr);
    MessagesMove(mid, on, leave, join, a.id.seqNr);
    var d := ChangeOwnership(c, on, accept).value;
    forall b | b in d.accounts && d.accounts[b].pending.Some?
      ensures Verified(d, d.accounts[b].pending.value)
    {
      assert b != on && Verified(c, c.accounts[b].pending.value);
      VerifiedGrows(c, d, c.accounts[b].pending.value);
    }
  }

  /** A change of pending owner or suspension alone. */
  lemma ShallowChange(c: Net, d: Net, on: Addr)
    requires Valid(c) && PendingVerified(c) && on in c.accounts
    requires on in d.accounts && d == c.(accounts := c.accounts[on := d.accounts[on]])
    requires d.accounts[on].id == c.accounts[on].id && d.accounts[on].owner == c.accounts[on].owner
    requires d.accounts[on].subAccounts == c.accounts[on].subAccounts
    requires d.accounts[on].pending.Some? ==> Verified(c, d.accounts[on].pending.value)
    ensures Valid(d) && PendingVerified(d)
  {
    forall a | a in d.accounts
      ensures Verified(d, d.accounts[a].owner)
      ensures d.accounts[a].pending.Some? ==> Verified(d, d.accounts[a].pending.value)
    {
      assert Verified(c, c.accounts[a].owner);
      VerifiedGrows(c, d, c.accounts[a].owner);
      if d.accounts[a].pending.Some? {
        VerifiedGrows(c, d, d.accounts[a].pending.value);
      }
    }
    forall p, n | p in d.accounts
      ensures n in d.accounts[p].subAccounts <==> OwnedBy(d, n, p)
    {
      assert n in c.accounts[p].subAccounts <==> OwnedBy(c, n, p);
    }
  }

  /** No action of the run delivers an untruthful raw message. */
  ghost predicate TruthfulRun(c: Net, actions: seq<Action>)
    decreases actions
  {
    actions == [] ||
    (&& (actions[0].ExecuteRaw? && Perform(c, actions[0]).Some? ==> Truthful(c, actions[0].on, actions[0].msg))
     && TruthfulRun(Step(c, actions[0]), actions[1..]))
  }

  /** Over every run of creations, transfers, acceptances and renunciations both sides agree. */
  lemma {:induction false} RunKeepsValid(c: Net, actions: seq<Action>)
    requires Valid(c) && PendingVerified(c) && TruthfulRun(c, actions)
    ensures Valid(Run(c, actions)) && PendingVerified(Run(c, actions))
    decreases actions
  {
    if actions != [] {
      StepKeepsValid(c, actions[0]);
      RunKeepsValid(Step(c, actions[0]), actions[1..]);
    }
  }

  const EMPTY_NET := Net(map[], map[], 0)

  /** After any such run from an empty chain, an account is owned by a parent exactly when it is listed there. */
  lemma RunsAgree(actions: seq<Action>, a: Addr, p: Addr)
    requires TruthfulRun(EMPTY_NET, actions)
    ensures var c := Run(EMPTY_NET, actions);
            a in c.accounts && p in c.accounts ==>
              (c.accounts[a].owner == SubAccount(p) <==>
                 c.accounts[a].id.Local? && c.accounts[a].id.seqNr in c.accounts[p].subAccounts)
  {
    RunKeepsValid(EMPTY_NET, actions);
    var c := Run(EMPTY_NET, actions);
    if a in c.accounts && p in c.accounts {
      AgreementIff(c, a, p);
    }
  }

  /** When an account renounces its ownership nobody is owned by it, before or after. */
  lemma RenouncedOwnsNobody(c: Net, on: Addr)
    requires Valid(c) && Perform(c, RenounceOwnership(on)).Some?
    ensures forall a :: a in c.accounts ==> c.accounts[a].owner != SubAccount(on)
    ensures var d := Step(c, RenounceOwnership(on));
            forall a :: a in d.accounts ==> d.accounts[a].owner != SubAccount(on)
  {
    forall a | a in c.accounts
      ensures c.accounts[a].owner != SubAccount(on)
    {
      AgreementIff(c, a, on);
    }
    var a := c.accounts[on];
    var mid := c.(accounts := c.accounts[on := a.(owner := Renounced, pending := None)]);
    MessagesMove(mid, on, ParentOf(a.owner), None, a.id.seqNr);
  }
}
