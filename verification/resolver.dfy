/**
 Identifier resolution shared by both controllers: an identifier string is
 read either as a numeric row id or as an account number (chosen by the
 request's `identifier_type`), optionally restricted to the caller's
 accounts, and the first matching row in id order is returned.
 */
module Resolver {
  import opened Ledger

  predicate IsDigit(c: char)
  {
    '0' <= c <= '9'
  }

  predicate AllDigits(s: string)
  {
    forall i | 0 <= i < |s| :: IsDigit(s[i])
  }

  /** The value of a string of decimal digits. */
  function DigitsValue(s: string): nat
    requires AllDigits(s)
  {
    if s == [] then 0
    else DigitsValue(s[..|s| - 1]) * 10 + (s[|s| - 1] as int - '0' as int)
  }

  /** How the database reads an identifier compared against the integer `id`
      column: a non-empty digit string denotes that number; anything else
      matches no row. */
  function ParseId(s: string): Option<nat>
  {
    if s != [] && AllDigits(s) then Some(DigitsValue(s)) else None
  }

  /** The canonical decimal spelling of a row id (as it appears in a URL). */
  function Decimal(n: nat): (s: string)
    ensures s != [] && AllDigits(s)
  {
    if n < 10 then [('0' as int + n) as char]
    else Decimal(n / 10) + [('0' as int + n % 10) as char]
  }

  lemma {:induction false} DigitsValueDecimal(n: nat)
    ensures DigitsValue(Decimal(n)) == n
  {
    var s := Decimal(n);
    if n < 10 {
      assert s[..|s| - 1] == [];
    } else {
      assert s[..|s| - 1] == Decimal(n / 10);
      DigitsValueDecimal(n / 10);
    }
  }

  /** Parsing the canonical spelling of an id gives the id back. */
  lemma ParseDecimal(n: nat)
    ensures ParseId(Decimal(n)) == Some(n)
  {
    DigitsValueDecimal(n);
  }

  /** Which column an identifier is compared against. */
  datatype Lookup = ById(text: string) | ByNumber(text: string)

  /** Whether the query is restricted to one owner (`where('user_id', ...)`). */
  datatype Scope = Anyone | OwnedBy(user: UserId)

  predicate Matches(a: Account, key: Lookup)
  {
    match key
    case ById(text) => ParseId(text) == Some(a.id)
    case ByNumber(text) => a.number == text
  }

  predicate InScope(a: Account, scope: Scope)
  {
    match scope
    case Anyone => true
    case OwnedBy(user) => a.owner == user
  }

  predicate Selects(a: Account, key: Lookup, scope: Scope)
  {
    Matches(a, key) && InScope(a, scope)
  }

  /** The column choice of both controllers: `id` when the identifier type is
      exactly "id", `account_number` for every other value. */
  function KeyOf(identifierType: string, identifier: string): (key: Lookup)
    ensures key.text == identifier
    ensures key.ById? <==> identifierType == "id"
  {
    if identifierType == "id" then ById(identifier) else ByNumber(identifier)
  }

  /** Index of the first row selected by `key` within `scope`
      (`firstOrFail` / `findOrFail`); None is the 404 case. */
  function Locate(accounts: seq<Account>, key: Lookup, scope: Scope): (r: Option<nat>)
    ensures r.Some? ==> r.value < |accounts| && Selects(accounts[r.value], key, scope)
    ensures r.Some? ==> forall j | 0 <= j < r.value :: !Selects(accounts[j], key, scope)
    ensures r.None? <==> forall j | 0 <= j < |accounts| :: !Selects(accounts[j], key, scope)
  {
    if accounts == [] then None
    else if Selects(accounts[0], key, scope) then Some(0)
    else match Locate(accounts[1..], key, scope)
      case None => None
      case Some(i) => Some(i + 1)
  }

  /** In a store whose ids are the auto-increment sequence, looking up the
      canonical spelling of id `n` finds row `n - 1` exactly when that row
      exists and lies within the scope. */
  lemma LocateById(accounts: seq<Account>, n: nat, scope: Scope)
    requires forall i | 0 <= i < |accounts| :: accounts[i].id == i + 1
    ensures Locate(accounts, ById(Decimal(n)), scope)
            == if 1 <= n <= |accounts| && InScope(accounts[n - 1], scope) then Some(n - 1) else None
  {
    ParseDecimal(n);
    var r := Locate(accounts, ById(Decimal(n)), scope);
    if 1 <= n <= |accounts| && InScope(accounts[n - 1], scope) {
      assert Selects(accounts[n - 1], ById(Decimal(n)), scope);
    }
  }

  /** A match restricted to an owner is also a match without the restriction,
      possibly at an earlier row. */
  lemma OwnedMatchExists(accounts: seq<Account>, key: Lookup, user: UserId)
    requires Locate(accounts, key, OwnedBy(user)).Some?
    ensures Locate(accounts, key, Anyone).Some?
    ensures Locate(accounts, key, Anyone).value <= Locate(accounts, key, OwnedBy(user)).value
  {
    var i := Locate(accounts, key, OwnedBy(user)).value;
    assert Selects(accounts[i], key, Anyone);
  }

  /** Ids are unique, so the caller's match by id is also the first match
      among all accounts. */
  lemma OwnedIdIsFirst(accounts: seq<Account>, text: string, user: UserId)
    requires forall i | 0 <= i < |accounts| :: accounts[i].id == i + 1
    requires Locate(accounts, ById(text), OwnedBy(user)).Some?
    ensures Locate(accounts, ById(text), Anyone) == Locate(accounts, ById(text), OwnedBy(user))
  {
    OwnedMatchExists(accounts, ById(text), user);
    var i := Locate(accounts, ById(text), OwnedBy(user)).value;
    var k := Locate(accounts, ById(text), Anyone).value;
    assert ParseId(text) == Some(accounts[i].id) && ParseId(text) == Some(accounts[k].id);
  }

  /** Distinct account-number strings never select the same row. */
  lemma DistinctNumbersDistinctRows(accounts: seq<Account>, x: string, y: string, s1: Scope, s2: Scope)
    requires x != y
    requires Locate(accounts, ByNumber(x), s1).Some? && Locate(accounts, ByNumber(y), s2).Some?
    ensures Locate(accounts, ByNumber(x), s1).value != Locate(accounts, ByNumber(y), s2).value
  {
  }
}
