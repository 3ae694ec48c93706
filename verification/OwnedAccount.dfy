/** The ownership storage of one account contract, changed in place by its handlers. */
module OwnedAccount {
  import opened Basics
  import opened Cosmos
  import opened SubAccounts

  class OwnerStore {
    const id: AccountId
    var owner: Governance
    var pending: Option<Governance>
    var subAccounts: set<nat>
    var suspended: bool

    ghost function View(): AccountState
      reads this
    {
      AccountState(id, owner, pending, subAccounts, suspended)
    }

    constructor (id: AccountId, owner: Governance)
      ensures View() == AccountState(id, owner, None, {}, false)
    {
      this.id, this.owner, pending, subAccounts, suspended := id, owner, None, {}, false;
    }

    /** `handle_sub_account_action` behind the suspension check of `execute`. */
    method HandleSubAccountAction(registry: map<AccountId, Addr>, sender: Addr, msg: Message)
      returns (r: Result<(), SubAccountError>)
      modifies this`subAccounts
      ensures forall c: Net :: msg.to in c.accounts && c.accounts[msg.to] == old(View()) && c.registry == registry ==>
                match Deliver(c, sender, msg)
                case Ok(d) => r == Ok(()) && d.accounts[msg.to] == View()
                case Err(e) => r == Err(e) && View() == old(View())
    {
      if suspended {
        return Err(AccountSuspended);
      }
      match msg
      case Register(_, n) =>
        if Local(n) in registry && registry[Local(n)] == sender {
          subAccounts := subAccounts + {n};
          r := Ok(());
        } else {
          r := Err(SubAccountRegisterFailed);
        }
      case Unregister(_, n) =>
        if Local(n) !in registry {
          r := Err(SubAccountDoesntExist);
        } else if registry[Local(n)] == sender {
          subAccounts := subAccounts - {n};
          r := Ok(());
        } else {
          r := Err(SubAccountIsNotCaller);
        }
    }

    /** The messages for the old and the new parent, pushed one by one before the owner changes. */
    method MaybeUpdateSubAccountGovernance() returns (r: Result<seq<Message>, SubAccountError>)
      ensures r == GovernanceMessages(View())
    {
      var msgs: seq<Message> := [];
      if pending.None? {
        return Err(TransferNotFound);
      }
      if owner.SubAccount? {
        msgs := msgs + [Unregister(owner.account, id.seqNr)];
      }
      if pending.value.SubAccount? {
        msgs := msgs + [Register(pending.value.account, id.seqNr)];
      }
      assert msgs == MoveMessages(ParentOf(owner), ParentOf(pending.value), id.seqNr);
      return Ok(msgs);
    }

    /** Leaves the parent, and gives up the last of the namespaces the registry lists for the account, if any. */
    method RemoveAccountFromContracts(namespaces: seq<string>)
      returns (r: Result<seq<Message>, SubAccountError>, forgone: Option<string>)
      ensures r == RenounceMessages(View())
      ensures forgone == if r.Ok? && namespaces != [] then Some(namespaces[|namespaces| - 1]) else None
    {
      forgone := None;
      var msgs: seq<Message> := [];
      if subAccounts != {} {
        return Err(RenounceWithSubAccount), None;
      }
      if owner.SubAccount? {
        msgs := msgs + [Unregister(owner.account, id.seqNr)];
      }
      assert msgs == MoveMessages(ParentOf(owner), None, id.seqNr);
      if namespaces != [] {
        forgone := Some(namespaces[|namespaces| - 1]);
      }
      r := Ok(msgs);
    }

    /** The ownership branch of `execute`: messages first, then the new owner is stored. */
    method UpdateOwnership(accept: bool, namespaces: seq<string>)
      returns (r: Result<seq<Message>, SubAccountError>, forgone: Option<string>)
      modifies this`owner, this`pending
      ensures match OwnershipChange(old(View()), accept)
              case Ok((a, msgs)) => r == Ok(msgs) && View() == a
              case Err(e) => r == Err(e) && View() == old(View())
      ensures forgone == if r.Ok? && !accept && namespaces != [] then Some(namespaces[|namespaces| - 1]) else None
    {
      forgone := None;
      if accept {
        r := MaybeUpdateSubAccountGovernance();
        if r.Ok? {
          owner, pending := pending.value, None;
        }
      } else {
        r, forgone := RemoveAccountFromContracts(namespaces);
        if r.Ok? {
          owner, pending := Renounced, None;
        }
      }
    }
  }
}
