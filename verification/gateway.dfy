/**
 The routes that sit behind the `validate.identifier` middleware: the
 identifier-type header is checked first, and only an accepted request
 reaches the controller, carrying the normalised identifier type.
 */
module Gateway {
  import opened Ledger
  import opened Resolver
  import opened IdentifierHeader
  import BankAccounts
  import Transfers

  /** 400 from the middleware, or whatever the controller answered. */
  datatype Routed<T> = BadRequest | Handled(response: T)

  /** `POST /transfers`. */
  function PostTransfer(s: Store, caller: UserId, header: Option<string>, req: Transfers.TransferRequest, now: nat)
    : (Store, Routed<Transfers.TransferResponse>)
  {
    match Handle(header)
    case Reject => (s, BadRequest)
    case Pass(identifierType) =>
      var (after, r) := Transfers.Execute(s, caller, identifierType, req, now);
      (after, Handled(r))
  }

  /** `GET /accounts/{identifier}`. */
  function GetAccount(s: Store, caller: UserId, header: Option<string>, identifier: string): Routed<Reply<Account>>
  {
    match Handle(header)
    case Reject => BadRequest
    case Pass(identifierType) => Handled(BankAccounts.Show(s, caller, identifierType, identifier))
  }

  /** `GET /accounts/{identifier}/balance`. */
  function GetBalance(s: Store, caller: UserId, header: Option<string>, identifier: string)
    : Routed<Reply<BankAccounts.BalanceBody>>
  {
    match Handle(header)
    case Reject => BadRequest
    case Pass(identifierType) => Handled(BankAccounts.Balance(s, caller, identifierType, identifier))
  }

  /** `GET /accounts/{identifier}/transfers`: the header is checked, but the
      controller does not use the identifier type. */
  function GetHistory(s: Store, caller: UserId, header: Option<string>, identifier: string)
    : Routed<Reply<seq<Transfer>>>
  {
    match Handle(header)
    case Reject => BadRequest
    case Pass(_) => Handled(Transfers.History(s, caller, identifier))
  }

  /** A header the middleware rejects stops every one of these requests with
      400 before any controller runs, so the ledger is unchanged. A header
      spelled "id" or "number" in any letter case reaches the controller as
      the lower-case word. */
  lemma HeaderGate(s: Store, caller: UserId, header: Option<string>, req: Transfers.TransferRequest, now: nat, identifier: string)
    ensures !(header.Some? && (SpelledIgnoringCase(header.value, "id") || SpelledIgnoringCase(header.value, "number"))) ==>
      && PostTransfer(s, caller, header, req, now) == (s, BadRequest)
      && GetAccount(s, caller, header, identifier) == BadRequest
      && GetBalance(s, caller, header, identifier) == BadRequest
      && GetHistory(s, caller, header, identifier) == BadRequest
    ensures header.Some? && SpelledIgnoringCase(header.value, "id") ==>
      && var (after, r) := Transfers.Execute(s, caller, "id", req, now);
      && PostTransfer(s, caller, header, req, now) == (after, Handled(r))
      && GetAccount(s, caller, header, identifier) == Handled(BankAccounts.Show(s, caller, "id", identifier))
      && GetBalance(s, caller, header, identifier) == Handled(BankAccounts.Balance(s, caller, "id", identifier))
      && GetHistory(s, caller, header, identifier) == Handled(Transfers.History(s, caller, identifier))
    ensures header.Some? && SpelledIgnoringCase(header.value, "number") ==>
      && var (after, r) := Transfers.Execute(s, caller, "number", req, now);
      && PostTransfer(s, caller, header, req, now) == (after, Handled(r))
      && GetAccount(s, caller, header, identifier) == Handled(BankAccounts.Show(s, caller, "number", identifier))
      && GetBalance(s, caller, header, identifier) == Handled(BankAccounts.Balance(s, caller, "number", identifier))
      && GetHistory(s, caller, header, identifier) == Handled(Transfers.History(s, caller, identifier))
  {
    HandleAcceptsExactly(header);
  }

  /** Every request that gets past the middleware selects a column by its
      header: a case variant of "id" selects `id`, and the only other value
      that can arrive, a case variant of "number", selects `account_number`. */
  lemma PassedTypeSelectsColumn(header: Option<string>, identifier: string)
    requires Handle(header).Pass?
    ensures KeyOf(Handle(header).identifierType, identifier)
            == if SpelledIgnoringCase(header.value, "id") then ById(identifier) else ByNumber(identifier)
    ensures !SpelledIgnoringCase(header.value, "id") ==> SpelledIgnoringCase(header.value, "number")
  {
    HandleAcceptsExactly(header);
  }
}
