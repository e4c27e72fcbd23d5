/**
 The ledger store: the `bank_accounts` and `transfers` tables as values.

 Money is held in integer minor units (pence), so the decimal column
 `balance` and the request field `amount` are plain integers here.
 */
module Ledger {

  datatype Option<+T> = None | Some(value: T)

  /** The authenticated principal (`Auth::id()`), supplied by the caller. */
  type UserId = nat

  /** A `bank_accounts` row: auto-increment `id`, owning `user_id`,
      external `account_number` and `balance` in pence. */
  datatype Account = Account(id: nat, owner: UserId, number: string, balance: int)

  /** A `transfers` row: auto-increment `id`, the two account ids,
      the amount in pence and the commit time. */
  datatype Transfer = Transfer(id: nat, from: nat, to: nat, amount: int, createdAt: nat)

  /** A numeric request field as the validator sees it: absent (or empty),
      present but not numeric, or a number of pence. */
  datatype MoneyInput = Absent | NotNumeric | Pence(value: int)

  /** A read endpoint's reply: 200 with a body, or 404. */
  datatype Reply<T> = Ok(body: T) | NotFound
  {
    function Status(): nat
    {
      if Ok? then 200 else 404
    }
  }

  /** Both tables, each in insertion (auto-increment) order. */
  datatype Store = Store(accounts: seq<Account>, transfers: seq<Transfer>)
  {
    /** Row ids are the auto-increment sequence, balances never go negative,
        and every transfer moved a positive amount between existing accounts. */
    predicate Valid()
    {
      && (forall i | 0 <= i < |accounts| :: accounts[i].id == i + 1 && accounts[i].balance >= 0)
      && (forall i | 0 <= i < |transfers| ::
            && transfers[i].id == i + 1
            && 1 <= transfers[i].from <= |accounts|
            && 1 <= transfers[i].to <= |accounts|
            && transfers[i].amount >= 1)
    }
  }

  /** The sum of all balances: the money held by the bank. */
  function Total(accounts: seq<Account>): int
  {
    if accounts == [] then 0 else accounts[0].balance + Total(accounts[1..])
  }

  /** Setting one balance changes the total by exactly the difference. */
  lemma {:induction false} TotalUpdate(accounts: seq<Account>, i: nat, balance: int)
    requires i < |accounts|
    ensures Total(accounts[i := accounts[i].(balance := balance)])
            == Total(accounts) - accounts[i].balance + balance
  {
    var updated := accounts[i := accounts[i].(balance := balance)];
    if i == 0 {
      assert updated[1..] == accounts[1..];
    } else {
      assert updated[1..] == accounts[1..][i - 1 := accounts[i].(balance := balance)];
      TotalUpdate(accounts[1..], i - 1, balance);
    }
  }

  /** Appending an account adds its balance to the total. */
  lemma {:induction false} TotalAppend(accounts: seq<Account>, a: Account)
    ensures Total(accounts + [a]) == Total(accounts) + a.balance
  {
    if accounts != [] {
      assert (accounts + [a])[1..] == accounts[1..] + [a];
      TotalAppend(accounts[1..], a);
    }
  }

  /** In a valid store no money is owed: the total is non-negative. */
  lemma {:induction false} TotalNonNegative(accounts: seq<Account>)
    requires forall i | 0 <= i < |accounts| :: accounts[i].balance >= 0
    ensures Total(accounts) >= 0
  {
    if accounts != [] {
      TotalNonNegative(accounts[1..]);
    }
  }
}
