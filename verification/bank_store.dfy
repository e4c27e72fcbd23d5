/**
 The mutable ledger the two `store` actions write to: the account rows and
 the transfer rows, updated in place. Every read action is a function of
 `State()`, so reading never changes the store.
 */
module BankStore {
  import opened Ledger
  import opened Resolver
  import BankAccounts
  import Transfers

  class Bank {
    var accounts: seq<Account>
    var transfers: seq<Transfer>

    function State(): Store
      reads this
    {
      Store(accounts, transfers)
    }

    ghost predicate Valid()
      reads this
    {
      State().Valid()
    }

    constructor ()
      ensures Valid() && State() == Store([], [])
    {
      accounts := [];
      transfers := [];
    }

    /** `BankAccountController::store`: validate the deposit, then insert the
        caller's new account. */
    method OpenAccount(caller: UserId, deposit: MoneyInput, suffix: string) returns (r: BankAccounts.OpenResponse)
      requires Valid()
      modifies this
      ensures Valid()
      ensures (State(), r) == BankAccounts.Open(old(State()), caller, deposit, suffix)
      ensures r.Opened? ==> Total(accounts) == old(Total(accounts)) + r.account.balance
      ensures Total(accounts) >= 0
    {
      var rule := BankAccounts.DepositCheck(deposit);
      if rule.Some? {
        r := BankAccounts.Rejected(rule.value);
        TotalNonNegative(accounts);
        return;
      }
      var account := Account(|accounts| + 1, caller, BankAccounts.NumberPrefix + suffix, deposit.value);
      TotalAppend(accounts, account);
      accounts := accounts + [account];
      r := BankAccounts.Opened(account);
      TotalNonNegative(accounts);
    }

    /** `TransferController::store`: validate, resolve the caller's source and
        any destination, check funds, then debit, credit and record as one
        unit. */
    method Transfer(caller: UserId, identifierType: string, req: Transfers.TransferRequest, now: nat)
      returns (r: Transfers.TransferResponse)
      requires Valid()
      modifies this
      ensures Valid()
      ensures (State(), r) == Transfers.Execute(old(State()), caller, identifierType, req, now)
      ensures Total(accounts) == old(Total(accounts)) && Total(accounts) >= 0
      ensures !r.Transferred? ==> accounts == old(accounts) && transfers == old(transfers)
    {
      TotalNonNegative(accounts);
      ghost var before := State();
      var errors := Transfers.Violations(accounts, identifierType, req);
      if errors != {} {
        r := Transfers.Invalid(errors);
        assert Transfers.Decide(accounts, caller, identifierType, req) == Transfers.Refuse(r);
        return;
      }
      assert Transfers.FromAccount !in errors && Transfers.AmountField !in errors;
      var source := Locate(accounts, KeyOf(identifierType, req.from.value), OwnedBy(caller));
      var target := Locate(accounts, KeyOf(identifierType, req.to.value), Anyone);
      if source.None? || target.None? {
        r := Transfers.NoSuchAccount;
        assert Transfers.Decide(accounts, caller, identifierType, req) == Transfers.Refuse(r);
        return;
      }
      var from, to, amount := source.value, target.value, req.amount.value;
      if accounts[from].balance < amount {
        r := Transfers.InsufficientFunds;
        assert Transfers.Decide(accounts, caller, identifierType, req) == Transfers.Refuse(r);
        return;
      }
      assert Transfers.Decide(accounts, caller, identifierType, req) == Transfers.Move(from, to, amount);
      var fromId, toId := accounts[from].id, accounts[to].id;
      accounts := accounts[from := accounts[from].(balance := accounts[from].balance - amount)];
      accounts := accounts[to := accounts[to].(balance := accounts[to].balance + amount)];
      transfers := transfers + [Ledger.Transfer(|transfers| + 1, fromId, toId, amount, now)];
      r := Transfers.Transferred;
      assert accounts == Transfers.Apply(before, from, to, amount, now).accounts;
      assert transfers == Transfers.Apply(before, from, to, amount, now).transfers;
      Transfers.TransferConservesMoney(before, caller, identifierType, req, now);
      Transfers.TransferPreservesValid(before, caller, identifierType, req, now);
    }
  }
}
