/**
 The transfer engine and the transfer history.

 A transfer request names a source and a destination account (read in the
 column the identifier type selects) and an amount. It is validated first;
 the source is then resolved among the caller's own accounts and the
 destination among all accounts; a source balance below the amount is
 refused; otherwise the debit, the credit and the new `transfers` row are
 applied together as one step.
 */
module Transfers {
  import opened Ledger
  import opened Resolver
  import BankAccounts

  /** The request fields a validation error can be reported against. */
  datatype TransferField = FromAccount | ToAccount | AmountField

  datatype TransferRequest = TransferRequest(from: Option<string>, to: Option<string>, amount: MoneyInput)

  datatype TransferResponse =
    | Transferred            // 201 "Transfer successful"
    | InsufficientFunds      // 403 "Insufficient funds"
    | NoSuchAccount          // 404, an identifier the caller may not debit
    | Invalid(fields: set<TransferField>)   // 422 with the failing fields
  {
    function Status(): nat
    {
      match this
      case Transferred => 201
      case InsufficientFunds => 403
      case NoSuchAccount => 404
      case Invalid(_) => 422
    }
  }

  /** `required`: present and, once empty strings read as null, non-empty. */
  predicate Filled(field: Option<string>)
  {
    field.Some? && field.value != ""
  }

  /** `exists:bank_accounts,<column>`: some row, of any owner, matches. */
  predicate Known(accounts: seq<Account>, identifierType: string, identifier: string)
  {
    Locate(accounts, KeyOf(identifierType, identifier), Anyone).Some?
  }

  /** The request rules, all evaluated (the validator reports every failing
      field): `from_account` required and existing; `to_account` required,
      existing and `different` from the raw `from_account` value; `amount`
      required, numeric and at least one penny. */
  function Violations(accounts: seq<Account>, identifierType: string, req: TransferRequest): set<TransferField>
  {
    (if Filled(req.from) && Known(accounts, identifierType, req.from.value) then {} else {FromAccount})
    + (if Filled(req.to) && Known(accounts, identifierType, req.to.value) && req.from != req.to
       then {} else {ToAccount})
    + (if req.amount.Pence? && req.amount.value >= 1 then {} else {AmountField})
  }

  /** What `store` decides before touching the ledger: refuse with a response,
      or move `amount` from row `source` to row `target`. */
  datatype Decision = Refuse(response: TransferResponse) | Move(source: nat, target: nat, amount: int)

  function Decide(accounts: seq<Account>, caller: UserId, identifierType: string, req: TransferRequest): (d: Decision)
    ensures d.Refuse? ==> !d.response.Transferred?
    ensures d.Move? ==>
      && req.from.Some? && req.to.Some? && req.amount == Pence(d.amount) && d.amount >= 1
      && d.source < |accounts| && d.target < |accounts|
      && accounts[d.source].owner == caller
      && accounts[d.source].balance >= d.amount
      && Matches(accounts[d.source], KeyOf(identifierType, req.from.value))
      && Matches(accounts[d.target], KeyOf(identifierType, req.to.value))
  {
    var errors := Violations(accounts, identifierType, req);
    if errors != {} then Refuse(Invalid(errors))
    else
      assert FromAccount !in errors && ToAccount !in errors && AmountField !in errors;
      Settle(accounts, caller, identifierType, req)
  }

  /** The steps after validation: resolve the source among the caller's
      accounts and the destination among all, then check the funds. */
  function Settle(accounts: seq<Account>, caller: UserId, identifierType: string, req: TransferRequest): (d: Decision)
    requires req.from.Some? && req.to.Some? && req.amount.Pence?
    ensures d.Refuse? ==> d.response == NoSuchAccount || d.response == InsufficientFunds
    ensures d.Move? ==>
      && req.amount == Pence(d.amount)
      && d.source < |accounts| && d.target < |accounts|
      && Locate(accounts, KeyOf(identifierType, req.from.value), OwnedBy(caller)) == Some(d.source)
      && Locate(accounts, KeyOf(identifierType, req.to.value), Anyone) == Some(d.target)
      && accounts[d.source].owner == caller
      && accounts[d.source].balance >= d.amount
      && Matches(accounts[d.source], KeyOf(identifierType, req.from.value))
      && Matches(accounts[d.target], KeyOf(identifierType, req.to.value))
  {
    var source := Locate(accounts, KeyOf(identifierType, req.from.value), OwnedBy(caller));
    var target := Locate(accounts, KeyOf(identifierType, req.to.value), Anyone);
    if source.None? || target.None? then Refuse(NoSuchAccount)
    else if accounts[source.value].balance < req.amount.value then Refuse(InsufficientFunds)
    else Move(source.value, target.value, req.amount.value)
  }

  /** The one atomic unit: decrement the source, increment the destination
      (each relative to the current row), append the transfer row. */
  function Apply(s: Store, source: nat, target: nat, amount: int, now: nat): Store
    requires source < |s.accounts| && target < |s.accounts|
  {
    var fromId := s.accounts[source].id;
    var toId := s.accounts[target].id;
    var debited := s.accounts[source := s.accounts[source].(balance := s.accounts[source].balance - amount)];
    var credited := debited[target := debited[target].(balance := debited[target].balance + amount)];
    Store(credited, s.transfers + [Transfer(|s.transfers| + 1, fromId, toId, amount, now)])
  }

  /** `store`, as written: the ledger after the request and the response. */
  function Execute(s: Store, caller: UserId, identifierType: string, req: TransferRequest, now: nat): (Store, TransferResponse)
  {
    match Decide(s.accounts, caller, identifierType, req)
    case Refuse(response) => (s, response)
    case Move(source, target, amount) => (Apply(s, source, target, amount, now), Transferred)
  }

  /** The atomic unit on its own: one appended row, the source down and the
      destination up by the amount (nothing moves when they are the same
      row), every other row and every other field untouched. */
  lemma ApplyEffects(s: Store, source: nat, target: nat, amount: int, now: nat)
    requires source < |s.accounts| && target < |s.accounts|
    ensures var after := Apply(s, source, target, amount, now);
      && |after.accounts| == |s.accounts|
      && after.transfers
         == s.transfers + [Transfer(|s.transfers| + 1, s.accounts[source].id, s.accounts[target].id, amount, now)]
      && (source != target ==>
            && after.accounts[source].balance == s.accounts[source].balance - amount
            && after.accounts[target].balance == s.accounts[target].balance + amount)
      && (source == target ==> after.accounts == s.accounts)
      && (forall i | 0 <= i < |s.accounts| && i != source && i != target :: after.accounts[i] == s.accounts[i])
      && (forall i | 0 <= i < |s.accounts| ::
            after.accounts[i] == s.accounts[i].(balance := after.accounts[i].balance))
  {
    if source == target {
      var debited := s.accounts[source := s.accounts[source].(balance := s.accounts[source].balance - amount)];
      assert debited[target := debited[target].(balance := debited[target].balance + amount)] == s.accounts;
    }
  }

  /** The atomic unit leaves the total unchanged. */
  lemma ApplyConserves(s: Store, source: nat, target: nat, amount: int, now: nat)
    requires source < |s.accounts| && target < |s.accounts|
    ensures Total(Apply(s, source, target, amount, now).accounts) == Total(s.accounts)
  {
    var debited := s.accounts[source := s.accounts[source].(balance := s.accounts[source].balance - amount)];
    TotalUpdate(s.accounts, source, s.accounts[source].balance - amount);
    TotalUpdate(debited, target, debited[target].balance + amount);
  }

  /** The atomic unit keeps a valid store valid when the source can cover a
      positive amount. */
  lemma ApplyPreservesValid(s: Store, source: nat, target: nat, amount: int, now: nat)
    requires source < |s.accounts| && target < |s.accounts|
    requires s.Valid() && amount >= 1 && s.accounts[source].balance >= amount
    ensures Apply(s, source, target, amount, now).Valid()
  {
    var after := Apply(s, source, target, amount, now);
    forall i | 0 <= i < |after.accounts|
      ensures after.accounts[i].id == i + 1 && after.accounts[i].balance >= 0
    {
      assert s.accounts[i].id == i + 1 && s.accounts[i].balance >= 0;
    }
    assert s.accounts[target].id == target + 1;
    assert s.accounts[source].id == source + 1;
  }

  /** Every outcome of a transfer leaves the sum of all balances unchanged. */
  lemma TransferConservesMoney(s: Store, caller: UserId, identifierType: string, req: TransferRequest, now: nat)
    ensures Total(Execute(s, caller, identifierType, req, now).0.accounts) == Total(s.accounts)
  {
    var d := Decide(s.accounts, caller, identifierType, req);
    if d.Move? {
      ApplyConserves(s, d.source, d.target, d.amount, now);
    }
  }

  /** Every outcome keeps the store valid: in particular no balance goes
      negative, because a balance equal to the amount may be spent but never
      more. */
  lemma TransferPreservesValid(s: Store, caller: UserId, identifierType: string, req: TransferRequest, now: nat)
    requires s.Valid()
    ensures Execute(s, caller, identifierType, req, now).0.Valid()
  {
    var d := Decide(s.accounts, caller, identifierType, req);
    if d.Move? {
      ApplyPreservesValid(s, d.source, d.target, d.amount, now);
    }
  }

  /** A refused request, whatever the reason, changes nothing. */
  lemma RefusalChangesNothing(s: Store, caller: UserId, identifierType: string, req: TransferRequest, now: nat)
    ensures var (after, r) := Execute(s, caller, identifierType, req, now);
      !r.Transferred? ==> after == s
  {
  }

  /** A successful transfer: one new row recording the source's id, the
      destination's id, the amount and the time; the source (owned by the
      caller, matched in the column of the identifier type) loses exactly
      the amount, the destination (matched the same way, any owner) gains
      it, and every other row keeps its balance. No field but `balance`
      changes anywhere. */
  lemma TransferEffects(s: Store, caller: UserId, identifierType: string, req: TransferRequest, now: nat)
    requires s.Valid()
    requires Execute(s, caller, identifierType, req, now).1 == Transferred
    ensures var after := Execute(s, caller, identifierType, req, now).0;
      && |after.accounts| == |s.accounts|
      && |after.transfers| == |s.transfers| + 1
      && after.transfers[..|s.transfers|] == s.transfers
      && var t := after.transfers[|s.transfers|];
      && t.id == |s.transfers| + 1 && t.createdAt == now
      && req.amount == Pence(t.amount) && t.amount >= 1
      && 1 <= t.from <= |s.accounts| && 1 <= t.to <= |s.accounts|
      && req.from.Some? && req.to.Some?
      && s.accounts[t.from - 1].owner == caller
      && Matches(s.accounts[t.from - 1], KeyOf(identifierType, req.from.value))
      && Matches(s.accounts[t.to - 1], KeyOf(identifierType, req.to.value))
      && (t.from != t.to ==>
            && after.accounts[t.from - 1].balance == s.accounts[t.from - 1].balance - t.amount
            && after.accounts[t.to - 1].balance == s.accounts[t.to - 1].balance + t.amount)
      && (forall i | 0 <= i < |s.accounts| && i + 1 != t.from && i + 1 != t.to ::
            after.accounts[i] == s.accounts[i])
      && (forall i | 0 <= i < |s.accounts| ::
            after.accounts[i] == s.accounts[i].(balance := after.accounts[i].balance))
  {
    var d := Decide(s.accounts, caller, identifierType, req);
    ApplyEffects(s, d.source, d.target, d.amount, now);
    assert s.accounts[d.source].id == d.source + 1;
    assert s.accounts[d.target].id == d.target + 1;
  }

  /** The outcome is decided in this order: any validation failure gives 422
      (reporting exactly the failing fields); otherwise 404 exactly when the
      caller owns no account matching the source identifier, even though one
      exists; otherwise 403 exactly when the caller's source balance is below
      the amount; otherwise 201, whoever owns the destination. */
  lemma TransferOutcomes(s: Store, caller: UserId, identifierType: string, req: TransferRequest, now: nat)
    ensures var r := Execute(s, caller, identifierType, req, now).1;
      var errors := Violations(s.accounts, identifierType, req);
      && (errors != {} ==> r == Invalid(errors) && r.Status() == 422)
      && (errors == {} ==>
            && req.from.Some? && req.amount.Pence?
            && var source := Locate(s.accounts, KeyOf(identifierType, req.from.value), OwnedBy(caller));
            && (r == NoSuchAccount && r.Status() == 404 <==> source.None?)
            && (r == InsufficientFunds && r.Status() == 403
                <==> source.Some? && s.accounts[source.value].balance < req.amount.value)
            && (r == Transferred && r.Status() == 201
                <==> source.Some? && s.accounts[source.value].balance >= req.amount.value))
  {
    var errors := Violations(s.accounts, identifierType, req);
    if errors == {} {
      assert ToAccount !in errors;
    }
  }

  /** The 422 cases the request rules name: a missing or empty field, alone
      or with others (all reported at once), a non-numeric amount, an amount
      below one penny, an identifier no row matches in the chosen column, and
      a destination spelled the same as the source. */
  lemma ValidationFailures(s: Store, caller: UserId, identifierType: string, req: TransferRequest, now: nat)
    ensures var (after, r) := Execute(s, caller, identifierType, req, now);
      && (req == TransferRequest(None, None, Absent) ==>
            r == Invalid({FromAccount, ToAccount, AmountField}) && after == s)
      && (!Filled(req.from) ==> r.Invalid? && FromAccount in r.fields && after == s)
      && (!Filled(req.to) ==> r.Invalid? && ToAccount in r.fields && after == s)
      && (!req.amount.Pence? ==> r.Invalid? && AmountField in r.fields && after == s)
      && (req.amount.Pence? && req.amount.value < 1 ==>
            r.Invalid? && AmountField in r.fields && after == s)
      && (req.from.Some? && !Known(s.accounts, identifierType, req.from.value) ==>
            r.Invalid? && FromAccount in r.fields && after == s)
      && (req.to.Some? && !Known(s.accounts, identifierType, req.to.value) ==>
            r.Invalid? && ToAccount in r.fields && after == s)
      && (req.to.Some? && req.from == req.to ==>
            r.Invalid? && ToAccount in r.fields && after == s)
  {
  }

  /** With identifier type "number" (any value but "id") a successful
      transfer always links two different accounts: distinct account-number
      strings cannot select the same row. */
  lemma NumberTransfersAreBetweenTwoAccounts(s: Store, caller: UserId, identifierType: string, req: TransferRequest, now: nat)
    requires s.Valid()
    requires identifierType != "id"
    requires Execute(s, caller, identifierType, req, now).1 == Transferred
    ensures var after := Execute(s, caller, identifierType, req, now).0;
      |after.transfers| == |s.transfers| + 1 && after.transfers[|s.transfers|].from != after.transfers[|s.transfers|].to
  {
    var d := Decide(s.accounts, caller, identifierType, req);
    var errors := Violations(s.accounts, identifierType, req);
    assert ToAccount !in errors;
    DistinctNumbersDistinctRows(s.accounts, req.from.value, req.to.value, OwnedBy(caller), Anyone);
    assert s.accounts[d.source].id == d.source + 1;
    assert s.accounts[d.target].id == d.target + 1;
  }

  /** By id, between two different existing rows and for a positive amount,
      validation passes and the request is decided by ownership of the
      source and then by its balance alone; the destination's owner does not
      matter. */
  lemma DecideById(s: Store, caller: UserId, n: nat, m: nat, amount: int)
    requires s.Valid()
    requires 1 <= n <= |s.accounts| && 1 <= m <= |s.accounts| && n != m && amount >= 1
    ensures Decide(s.accounts, caller, "id", TransferRequest(Some(Decimal(n)), Some(Decimal(m)), Pence(amount)))
            == if s.accounts[n - 1].owner != caller then Refuse(NoSuchAccount)
               else if s.accounts[n - 1].balance < amount then Refuse(InsufficientFunds)
               else Move(n - 1, m - 1, amount)
  {
    ParseDecimal(n);
    ParseDecimal(m);
    LocateById(s.accounts, n, Anyone);
    LocateById(s.accounts, m, Anyone);
    LocateById(s.accounts, n, OwnedBy(caller));
    var req := TransferRequest(Some(Decimal(n)), Some(Decimal(m)), Pence(amount));
    assert Violations(s.accounts, "id", req) == {};
  }

  /** The worked example: 1000.00 and 500.00, 200.00 moved by id, leaves
      800.00 and 700.00 and one transfer row. */
  lemma TransferExample()
    ensures
      var s := Store([Account(1, 10, "ACC-000001", 100000), Account(2, 20, "ACC-000002", 50000)], []);
      Execute(s, 10, "id", TransferRequest(Some("1"), Some("2"), Pence(20000)), 7)
      == (Store([Account(1, 10, "ACC-000001", 80000), Account(2, 20, "ACC-000002", 70000)],
                [Transfer(1, 1, 2, 20000, 7)]),
          Transferred)
  {
    var s := Store([Account(1, 10, "ACC-000001", 100000), Account(2, 20, "ACC-000002", 50000)], []);
    DecideById(s, 10, 1, 2, 20000);
    assert Decimal(1) == "1" && Decimal(2) == "2";
    var debited := s.accounts[0 := s.accounts[0].(balance := 80000)];
    assert debited[1 := debited[1].(balance := 70000)]
           == [Account(1, 10, "ACC-000001", 80000), Account(2, 20, "ACC-000002", 70000)];
    assert s.transfers + [Transfer(1, 1, 2, 20000, 7)] == [Transfer(1, 1, 2, 20000, 7)];
  }

  /** The refused example: 200.00 from a balance of 100.00 is 403 and the
      ledger is untouched. */
  lemma InsufficientFundsExample()
    ensures
      var s := Store([Account(1, 10, "ACC-000001", 10000), Account(2, 20, "ACC-000002", 50000)], []);
      Execute(s, 10, "id", TransferRequest(Some("1"), Some("2"), Pence(20000)), 7) == (s, InsufficientFunds)
  {
    var s := Store([Account(1, 10, "ACC-000001", 10000), Account(2, 20, "ACC-000002", 50000)], []);
    DecideById(s, 10, 1, 2, 20000);
    assert Decimal(1) == "1" && Decimal(2) == "2";
  }

  // ---------------------------------------------------------------------
  // History

  predicate Involves(t: Transfer, id: nat)
  {
    t.from == id || t.to == id
  }

  /** The rows sent or received by account `id`, in stored order. */
  function Involving(ts: seq<Transfer>, id: nat): seq<Transfer>
  {
    if ts == [] then []
    else (if Involves(ts[0], id) then [ts[0]] else []) + Involving(ts[1..], id)
  }

  lemma {:induction false} InvolvingExact(ts: seq<Transfer>, id: nat)
    ensures forall t :: multiset(Involving(ts, id))[t]
                        == if Involves(t, id) then multiset(ts)[t] else 0
  {
    if ts != [] {
      assert ts == [ts[0]] + ts[1..];
      InvolvingExact(ts[1..], id);
    }
  }

  /** `orderBy('created_at', 'desc')`. */
  predicate NewestFirst(ts: seq<Transfer>)
  {
    forall i, j | 0 <= i < j < |ts| :: ts[i].createdAt >= ts[j].createdAt
  }

  function InsertNewestFirst(t: Transfer, ts: seq<Transfer>): (r: seq<Transfer>)
    requires NewestFirst(ts)
    ensures NewestFirst(r)
    ensures multiset(r) == multiset(ts) + multiset{t}
    ensures |r| == |ts| + 1 && (r[0] == t || (ts != [] && r[0] == ts[0]))
  {
    if ts == [] || t.createdAt >= ts[0].createdAt then [t] + ts
    else
      assert ts == [ts[0]] + ts[1..];
      [ts[0]] + InsertNewestFirst(t, ts[1..])
  }

  /** Insertion sort, newest first; rows with equal timestamps keep their
      stored order. */
  function SortNewestFirst(ts: seq<Transfer>): (r: seq<Transfer>)
    ensures NewestFirst(r)
    ensures multiset(r) == multiset(ts)
  {
    if ts == [] then []
    else
      assert ts == [ts[0]] + ts[1..];
      InsertNewestFirst(ts[0], SortNewestFirst(ts[1..]))
  }

  /** `history`, as written: the path identifier is always compared with the
      `id` column of the caller's accounts, whatever the identifier type. */
  function History(s: Store, caller: UserId, accountId: string): (r: Reply<seq<Transfer>>)
    ensures r.NotFound? <==> forall a | a in s.accounts :: !(a.owner == caller && Matches(a, ById(accountId)))
    ensures r.Ok? ==> NewestFirst(r.body)
  {
    match Locate(s.accounts, ById(accountId), OwnedBy(caller))
    case None => NotFound
    case Some(i) => Ok(SortNewestFirst(Involving(s.transfers, s.accounts[i].id)))
  }

  /** The listing of an account the caller owns holds exactly the transfers it
      sent or received, each once per row, newest first. */
  lemma HistoryLists(s: Store, caller: UserId, accountId: string, a: Account)
    requires a in s.accounts && a.owner == caller && Matches(a, ById(accountId))
    ensures History(s, caller, accountId).Ok?
    ensures NewestFirst(History(s, caller, accountId).body)
    ensures forall t :: multiset(History(s, caller, accountId).body)[t]
                        == if Involves(t, a.id) then multiset(s.transfers)[t] else 0
  {
    var i := Locate(s.accounts, ById(accountId), OwnedBy(caller)).value;
    assert s.accounts[i].id == a.id;
    InvolvingExact(s.transfers, a.id);
  }

  /** An owned account without transfers has an empty history, not an error. */
  lemma HistoryEmpty(s: Store, caller: UserId, accountId: string, a: Account)
    requires a in s.accounts && a.owner == caller && Matches(a, ById(accountId))
    requires forall t | t in s.transfers :: !Involves(t, a.id)
    ensures History(s, caller, accountId) == Ok([])
  {
    HistoryLists(s, caller, accountId, a);
    var body := History(s, caller, accountId).body;
    assert multiset(body) == multiset{} by {
      forall t ensures multiset(body)[t] == 0 {
        if Involves(t, a.id) {
          assert t !in s.transfers;
        }
      }
    }
    assert |body| == |multiset(body)|;
  }

  /** After a successful transfer both the source and the destination list the
      new row in their history. */
  lemma TransferShowsInHistory(s: Store, caller: UserId, identifierType: string, req: TransferRequest, now: nat, user: UserId, n: nat)
    requires s.Valid()
    requires Execute(s, caller, identifierType, req, now).1 == Transferred
    requires var after := Execute(s, caller, identifierType, req, now).0;
      1 <= n <= |after.accounts| && after.accounts[n - 1].owner == user
      && Involves(after.transfers[|s.transfers|], n)
    ensures var after := Execute(s, caller, identifierType, req, now).0;
      History(after, user, Decimal(n)).Ok?
      && after.transfers[|s.transfers|] in History(after, user, Decimal(n)).body
  {
    var after := Execute(s, caller, identifierType, req, now).0;
    TransferPreservesValid(s, caller, identifierType, req, now);
    TransferEffects(s, caller, identifierType, req, now);
    var a := after.accounts[n - 1];
    ParseDecimal(n);
    assert a.id == n;
    HistoryLists(after, user, Decimal(n), a);
    var t := after.transfers[|s.transfers|];
    assert multiset(after.transfers)[t] > 0;
    assert multiset(History(after, user, Decimal(n)).body)[t] > 0;
  }

  // ---------------------------------------------------------------------
  // Corrected behaviour

  /** `history` resolving the identifier by the identifier type, as `show`
      and `balance` do. */
  function HistoryByKind(s: Store, caller: UserId, identifierType: string, identifier: string): (r: Reply<seq<Transfer>>)
    ensures r.Ok? ==> NewestFirst(r.body)
  {
    match Locate(s.accounts, KeyOf(identifierType, identifier), OwnedBy(caller))
    case None => NotFound
    case Some(i) => Ok(SortNewestFirst(Involving(s.transfers, s.accounts[i].id)))
  }

  /** The corrected history answers 404 exactly when `show` does, lists the
      transfers of the very account `show` returns, and agrees with the code
      as written when the identifier type is "id". */
  lemma HistoryByKindAgreesWithShow(s: Store, caller: UserId, identifierType: string, identifier: string)
    ensures var r := HistoryByKind(s, caller, identifierType, identifier);
      var shown := BankAccounts.Show(s, caller, identifierType, identifier);
      && (r.NotFound? <==> shown.NotFound?)
      && (r.Ok? ==> forall t :: multiset(r.body)[t]
                                == if Involves(t, shown.body.id) then multiset(s.transfers)[t] else 0)
    ensures identifierType == "id" ==>
              HistoryByKind(s, caller, identifierType, identifier) == History(s, caller, identifier)
  {
    match Locate(s.accounts, KeyOf(identifierType, identifier), OwnedBy(caller))
    case None =>
    case Some(i) => InvolvingExact(s.transfers, s.accounts[i].id);
  }

  /** As written, looking up history by account number fails: the caller's
      own account, named by its number under identifier type "number", is 404,
      while the corrected lookup lists its transfer. */
  lemma HistoryIgnoresIdentifierType()
    ensures
      var s := Store([Account(1, 10, "ACC-482910", 100000), Account(2, 20, "ACC-000002", 50000)],
                     [Transfer(1, 1, 2, 20000, 7)]);
      && BankAccounts.Show(s, 10, "number", "ACC-482910") == Ok(s.accounts[0])
      && History(s, 10, "ACC-482910") == NotFound
      && HistoryByKind(s, 10, "number", "ACC-482910") == Ok([Transfer(1, 1, 2, 20000, 7)])
  {
    var s := Store([Account(1, 10, "ACC-482910", 100000), Account(2, 20, "ACC-000002", 50000)],
                   [Transfer(1, 1, 2, 20000, 7)]);
    assert !AllDigits("ACC-482910") by { assert !IsDigit("ACC-482910"[0]); }
    assert Involving(s.transfers, 1) == [Transfer(1, 1, 2, 20000, 7)] by {
      assert s.transfers[1..] == [];
    }
  }

  /** The corrected `different` rule: both identifiers select the same row
      among all accounts, however they are spelled. */
  predicate SameRow(accounts: seq<Account>, identifierType: string, req: TransferRequest)
  {
    && req.from.Some? && req.to.Some?
    && var source := Locate(accounts, KeyOf(identifierType, req.from.value), Anyone);
    && source.Some? && source == Locate(accounts, KeyOf(identifierType, req.to.value), Anyone)
  }

  /** `store` with the self-transfer rule applied to the resolved accounts
      rather than to the raw identifier strings. Like `different`, it is a
      validation rule on `to_account`, so it answers 422 before the ownership
      and funds checks. */
  function DecideChecked(accounts: seq<Account>, caller: UserId, identifierType: string, req: TransferRequest): Decision
  {
    var errors := Violations(accounts, identifierType, req)
                  + (if SameRow(accounts, identifierType, req) then {ToAccount} else {});
    if errors != {} then Refuse(Invalid(errors))
    else
      assert FromAccount !in errors && ToAccount !in errors && AmountField !in errors;
      Settle(accounts, caller, identifierType, req)
  }

  function ExecuteChecked(s: Store, caller: UserId, identifierType: string, req: TransferRequest, now: nat): (Store, TransferResponse)
  {
    match DecideChecked(s.accounts, caller, identifierType, req)
    case Refuse(response) => (s, response)
    case Move(source, target, amount) => (Apply(s, source, target, amount, now), Transferred)
  }

  /** The corrected rule changes only requests whose two identifiers select
      the same row: those get 422 with `to_account` among the failing fields;
      every other request is decided exactly as the code decides it. */
  lemma CheckedAgreesUnlessSameRow(accounts: seq<Account>, caller: UserId, identifierType: string, req: TransferRequest)
    ensures !SameRow(accounts, identifierType, req) ==>
              DecideChecked(accounts, caller, identifierType, req) == Decide(accounts, caller, identifierType, req)
    ensures SameRow(accounts, identifierType, req) ==>
              DecideChecked(accounts, caller, identifierType, req)
              == Refuse(Invalid(Violations(accounts, identifierType, req) + {ToAccount}))
  {
  }

  /** Under the corrected rule a move never has the same row as source and
      destination: by id, the caller's source is also the first match among
      all rows; by number, the raw `different` rule already keeps the two
      strings, and so the two rows, apart. */
  lemma CheckedSourceIsNotTarget(accounts: seq<Account>, caller: UserId, identifierType: string, req: TransferRequest)
    requires forall i | 0 <= i < |accounts| :: accounts[i].id == i + 1
    requires DecideChecked(accounts, caller, identifierType, req).Move?
    ensures var d := DecideChecked(accounts, caller, identifierType, req);
      d.source < |accounts| && d.target < |accounts| && d.source != d.target
  {
    var errors := Violations(accounts, identifierType, req);
    assert errors == {} && !SameRow(accounts, identifierType, req);
    assert ToAccount !in errors;
    if identifierType == "id" {
      OwnedIdIsFirst(accounts, req.from.value, caller);
    } else {
      DistinctNumbersDistinctRows(accounts, req.from.value, req.to.value, OwnedBy(caller), Anyone);
    }
  }

  /** The atomic unit between two different rows of a valid store records
      two different account ids, debits one and credits the other. */
  lemma ApplyBetweenTwo(s: Store, source: nat, target: nat, amount: int, now: nat)
    requires s.Valid()
    requires source < |s.accounts| && target < |s.accounts| && source != target
    ensures var after := Apply(s, source, target, amount, now);
      && |after.transfers| == |s.transfers| + 1
      && var t := after.transfers[|s.transfers|];
      && t.from != t.to
      && 1 <= t.from <= |s.accounts| && 1 <= t.to <= |s.accounts|
      && after.accounts[t.from - 1].balance == s.accounts[t.from - 1].balance - t.amount
      && after.accounts[t.to - 1].balance == s.accounts[t.to - 1].balance + t.amount
      && Total(after.accounts) == Total(s.accounts)
  {
    ApplyEffects(s, source, target, amount, now);
    ApplyConserves(s, source, target, amount, now);
    assert s.accounts[source].id == source + 1;
    assert s.accounts[target].id == target + 1;
  }

  /** With the corrected rule every recorded transfer links two different
      accounts, so the source loses and the destination gains exactly the
      amount, for either identifier type. */
  lemma CheckedTransfersAreBetweenTwoAccounts(s: Store, caller: UserId, identifierType: string, req: TransferRequest, now: nat)
    requires s.Valid()
    requires ExecuteChecked(s, caller, identifierType, req, now).1 == Transferred
    ensures var after := ExecuteChecked(s, caller, identifierType, req, now).0;
      && |after.transfers| == |s.transfers| + 1
      && var t := after.transfers[|s.transfers|];
      && t.from != t.to
      && 1 <= t.from <= |s.accounts| && 1 <= t.to <= |s.accounts|
      && after.accounts[t.from - 1].balance == s.accounts[t.from - 1].balance - t.amount
      && after.accounts[t.to - 1].balance == s.accounts[t.to - 1].balance + t.amount
      && Total(after.accounts) == Total(s.accounts)
  {
    var d := DecideChecked(s.accounts, caller, identifierType, req);
    CheckedSourceIsNotTarget(s.accounts, caller, identifierType, req);
    assert ExecuteChecked(s, caller, identifierType, req, now).0 == Apply(s, d.source, d.target, d.amount, now);
    ApplyBetweenTwo(s, d.source, d.target, d.amount, now);
  }

  /** As written, the `different` rule compares the identifier strings, so
      "1" and "01" pass it while both select account 1: the transfer is
      accepted, recorded from account 1 to itself, and no balance moves. The
      corrected rule refuses it with 422. */
  lemma SelfTransferThroughLeadingZero()
    ensures
      var s := Store([Account(1, 10, "ACC-000001", 50000), Account(2, 20, "ACC-000002", 50000)], []);
      var req := TransferRequest(Some("1"), Some("01"), Pence(10000));
      && Execute(s, 10, "id", req, 7) == (Store(s.accounts, [Transfer(1, 1, 1, 10000, 7)]), Transferred)
      && ExecuteChecked(s, 10, "id", req, 7) == (s, Invalid({ToAccount}))
  {
    var s := Store([Account(1, 10, "ACC-000001", 50000), Account(2, 20, "ACC-000002", 50000)], []);
    assert Decimal(1) == "1";
    assert ParseId("01") == Some(1) by {
      assert "01"[..1] == "0";
      assert "0"[..0] == [];
    }
    LocateById(s.accounts, 1, Anyone);
    LocateById(s.accounts, 1, OwnedBy(10));
    assert Locate(s.accounts, ById("01"), Anyone) == Some(0);
    var req := TransferRequest(Some("1"), Some("01"), Pence(10000));
    assert Violations(s.accounts, "id", req) == {};
    assert Decide(s.accounts, 10, "id", req) == Move(0, 0, 10000);
    var debited := s.accounts[0 := s.accounts[0].(balance := 40000)];
    assert debited[0 := debited[0].(balance := 50000)] == s.accounts;
    assert s.transfers + [Transfer(1, 1, 1, 10000, 7)] == [Transfer(1, 1, 1, 10000, 7)];
    assert Apply(s, 0, 0, 10000, 7) == Store(s.accounts, [Transfer(1, 1, 1, 10000, 7)]);
    assert SameRow(s.accounts, "id", req);
    CheckedAgreesUnlessSameRow(s.accounts, 10, "id", req);
    assert Violations(s.accounts, "id", req) + {ToAccount} == {ToAccount};
  }
}
