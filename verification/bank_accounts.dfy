/**
 The account service: opening an account with an initial deposit, listing
 the caller's accounts, and showing one account or its balance after
 resolving the identifier by the request's identifier type, always among
 the caller's own accounts.
 */
module BankAccounts {
  import opened Ledger
  import opened Resolver

  const NumberPrefix := "ACC-"
  const Currency := "GBP"

  /** The validation rule of `initial_deposit` that failed. */
  datatype DepositRule = Required | Numeric | Min

  datatype OpenResponse = Opened(account: Account) | Rejected(rule: DepositRule)
  {
    function Status(): nat
    {
      if Opened? then 201 else 422
    }
  }

  datatype BalanceBody = BalanceBody(balance: int, currency: string)

  /** `required|numeric|min:0`: the first rule the deposit breaks, if any. */
  function DepositCheck(deposit: MoneyInput): (r: Option<DepositRule>)
    ensures r.None? <==> deposit.Pence? && deposit.value >= 0
  {
    match deposit
    case Absent => Some(Required)
    case NotNumeric => Some(Numeric)
    case Pence(v) => if v < 0 then Some(Min) else None
  }

  /** `store`: validate the deposit, then insert one row owned by the caller.
      `suffix` stands for the generated unique part of the account number. */
  function Open(s: Store, caller: UserId, deposit: MoneyInput, suffix: string): (Store, OpenResponse)
  {
    match DepositCheck(deposit)
    case Some(rule) => (s, Rejected(rule))
    case None =>
      var account := Account(|s.accounts| + 1, caller, NumberPrefix + suffix, deposit.value);
      (Store(s.accounts + [account], s.transfers), Opened(account))
  }

  /** `index`: the caller's accounts, in id order. */
  function Owned(accounts: seq<Account>, caller: UserId): seq<Account>
  {
    if accounts == [] then []
    else (if accounts[0].owner == caller then [accounts[0]] else []) + Owned(accounts[1..], caller)
  }

  /** The listing holds exactly the caller's rows, each as often as stored. */
  lemma {:induction false} OwnedExact(accounts: seq<Account>, caller: UserId)
    ensures forall a :: multiset(Owned(accounts, caller))[a]
                        == if a.owner == caller then multiset(accounts)[a] else 0
  {
    if accounts != [] {
      assert accounts == [accounts[0]] + accounts[1..];
      OwnedExact(accounts[1..], caller);
    }
  }

  function Index(s: Store, caller: UserId): seq<Account>
  {
    Owned(s.accounts, caller)
  }

  /** `show`: the caller's first account matching the identifier in the
      column the identifier type selects; someone else's account is 404. */
  function Show(s: Store, caller: UserId, identifierType: string, identifier: string): (r: Reply<Account>)
    ensures r.Ok? ==> r.body in s.accounts && r.body.owner == caller
                      && Matches(r.body, KeyOf(identifierType, identifier))
    ensures r.NotFound? <==> forall a | a in s.accounts ::
                               !(a.owner == caller && Matches(a, KeyOf(identifierType, identifier)))
  {
    match Locate(s.accounts, KeyOf(identifierType, identifier), OwnedBy(caller))
    case None => NotFound
    case Some(i) => Ok(s.accounts[i])
  }

  /** `balance`: the same resolution as `show`, reporting the balance in the
      single fixed currency. */
  function Balance(s: Store, caller: UserId, identifierType: string, identifier: string): (r: Reply<BalanceBody>)
    ensures r.Ok? ==> r.body.currency == Currency
  {
    match Locate(s.accounts, KeyOf(identifierType, identifier), OwnedBy(caller))
    case None => NotFound
    case Some(i) => Ok(BalanceBody(s.accounts[i].balance, Currency))
  }

  /** `balance` reports exactly the balance of the account `show` returns,
      and is 404 exactly when `show` is. */
  lemma BalanceAgreesWithShow(s: Store, caller: UserId, identifierType: string, identifier: string)
    ensures Show(s, caller, identifierType, identifier).NotFound?
            <==> Balance(s, caller, identifierType, identifier).NotFound?
    ensures Show(s, caller, identifierType, identifier).Ok? ==>
              Balance(s, caller, identifierType, identifier)
              == Ok(BalanceBody(Show(s, caller, identifierType, identifier).body.balance, "GBP"))
  {
  }

  lemma {:induction false} OwnedAppend(accounts: seq<Account>, a: Account, caller: UserId)
    ensures Owned(accounts + [a], caller)
            == Owned(accounts, caller) + (if a.owner == caller then [a] else [])
  {
    var head := if a.owner == caller then [a] else [];
    if accounts == [] {
      assert Owned([a], caller) == head + Owned([], caller);
    } else {
      var front := if accounts[0].owner == caller then [accounts[0]] else [];
      assert (accounts + [a])[1..] == accounts[1..] + [a];
      calc {
        Owned(accounts + [a], caller);
        front + Owned(accounts[1..] + [a], caller);
        { OwnedAppend(accounts[1..], a, caller); }
        front + (Owned(accounts[1..], caller) + head);
        Owned(accounts, caller) + head;
      }
    }
  }

  /** Opening an account: rejected deposits change nothing; accepted ones
      append one row owned by the caller, holding the deposit, numbered with
      the "ACC-" prefix and a fresh id, and leave every other row and every
      transfer as it was. The total held grows by the deposit. */
  lemma OpenEffects(s: Store, caller: UserId, deposit: MoneyInput, suffix: string)
    requires s.Valid()
    ensures var (after, r) := Open(s, caller, deposit, suffix);
      && after.Valid()
      && (r.Opened? <==> deposit.Pence? && deposit.value >= 0)
      && (r.Rejected? ==> after == s && r.Status() == 422)
      && (r.Opened? ==>
            && r.Status() == 201
            && after.accounts == s.accounts + [r.account]
            && after.transfers == s.transfers
            && r.account.owner == caller
            && r.account.balance == deposit.value
            && r.account.number[..|NumberPrefix|] == NumberPrefix
            && (forall b | b in s.accounts :: b.id != r.account.id)
            && Total(after.accounts) == Total(s.accounts) + deposit.value)
  {
    var (after, r) := Open(s, caller, deposit, suffix);
    if r.Opened? {
      TotalAppend(s.accounts, r.account);
      forall b | b in s.accounts ensures b.id != r.account.id {
        var i :| 0 <= i < |s.accounts| && s.accounts[i] == b;
      }
    }
  }

  /** After opening, the new account is listed for its owner (after the
      existing ones) and for nobody else. */
  lemma IndexAfterOpen(s: Store, caller: UserId, deposit: MoneyInput, suffix: string, user: UserId)
    requires Open(s, caller, deposit, suffix).1.Opened?
    ensures var (after, r) := Open(s, caller, deposit, suffix);
      Index(after, user) == Index(s, user) + (if user == caller then [r.account] else [])
  {
    var (after, r) := Open(s, caller, deposit, suffix);
    OwnedAppend(s.accounts, r.account, user);
  }

  /** After opening, the owner finds the new account by its id, while any
      other caller asking for the same id gets 404. */
  lemma ShowAfterOpen(s: Store, caller: UserId, deposit: MoneyInput, suffix: string, user: UserId)
    requires s.Valid()
    requires Open(s, caller, deposit, suffix).1.Opened?
    ensures var (after, r) := Open(s, caller, deposit, suffix);
      Show(after, user, "id", Decimal(r.account.id))
      == if user == caller then Ok(r.account) else NotFound
  {
    var (after, r) := Open(s, caller, deposit, suffix);
    OpenEffects(s, caller, deposit, suffix);
    LocateById(after.accounts, r.account.id, OwnedBy(user));
  }

  /** By id, `show` finds row `n` exactly when it exists and belongs to the
      caller: another owner's account is indistinguishable from a missing one. */
  lemma ShowById(s: Store, caller: UserId, n: nat)
    requires s.Valid()
    ensures Show(s, caller, "id", Decimal(n))
            == if 1 <= n <= |s.accounts| && s.accounts[n - 1].owner == caller
               then Ok(s.accounts[n - 1]) else NotFound
    ensures Show(s, caller, "id", Decimal(n)).Status()
            == if 1 <= n <= |s.accounts| && s.accounts[n - 1].owner == caller then 200 else 404
  {
    LocateById(s.accounts, n, OwnedBy(caller));
  }
}
