# Banking ledger: accounts, transfers and identifier resolution

A Dafny model of the core of a small banking REST API (Laravel). The API
opens accounts with an initial deposit, lists the caller's accounts, shows
one account or its balance, moves money between accounts and lists an
account's transfers. Accounts are named either by numeric id or by external
account number. The request header `X-Account-Identifier-Type` chooses which.

The database is replaced by a `Store` value holding two sequences in
auto-increment order: `bank_accounts` rows (id, owner, account number,
balance) and `transfers` rows (id, from, to, amount, created_at). The
`BankStore.Bank` class holds the same two sequences as fields. Its two
methods are the two `store` actions, which change the ledger in place. Each
method is proved equal to a specification function (`BankAccounts.Open`,
`Transfers.Execute`). The read actions (`index`, `show`, `balance`,
`history`) are functions of the store. Money is in integer pence, so the
rule `min:0.01` becomes `amount >= 1`. Every HTTP outcome is a constructor
of a response datatype. `OpenResponse`, `TransferResponse` and `Reply` carry
a `Status()` giving the code (200, 201, 403, 404 or 422); the middleware's refusal
is `Gateway.BadRequest` (400).

Modules:

- `Ledger` (ledger.dfy): rows, the store, its invariant `Valid` and the total `Total`.
- `Resolver` (resolver.dfy): the id/number lookup shared by all controllers.
- `IdentifierHeader` (identifier_header.dfy): the header middleware.
- `BankAccounts` (bank_accounts.dfy): `store`, `index`, `show`, `balance`.
- `Transfers` (transfers.dfy): the transfer engine, `history`, and the corrected variants (see Findings).
- `BankStore` (bank_store.dfy): the mutable ledger class.
- `Gateway` (gateway.dfy): the middleware placed in front of the controllers.

Behaviour of the code that the model keeps, although it looks unintended:

- `history` ignores the identifier type.
- The self-transfer rule compares the raw request values, not the resolved accounts.
- A colliding account number is not handled.
- Amounts with more than two decimals are not rejected (pence cannot express them).

## Model

| member | source | states |
|---|---|---|
| Resolver.KeyOf | app/Http/Controllers/TransferController.php:18 | the column is `id` exactly when the identifier type is "id", `account_number` for every other value |
| Resolver.Locate | app/Http/Controllers/BankAccountController.php:44-51 | returns the first row matching the identifier in the chosen column within the scope; None (404) exactly when no row matches |
| Resolver.LocateById | app/Http/Controllers/BankAccountController.php:46 | in a valid store, looking up id `n` finds row `n` exactly when it exists and lies in the scope |
| Resolver.ParseDecimal | app/Http/Controllers/TransferController.php:28 | the id column read of an id's decimal spelling is that id |
| Resolver.OwnedIdIsFirst | app/Http/Controllers/TransferController.php:28-32 | ids are unique, so the caller's match by id is the first match among all rows too |
| Resolver.DistinctNumbersDistinctRows | app/Http/Controllers/TransferController.php:34-39 | two different account-number strings never select the same row, whatever the scopes |
| Resolver.OwnedMatchExists | app/Http/Controllers/TransferController.php:20-30 | an account found among the caller's own also passes the `exists` rule, which checks all rows |
| IdentifierHeader.ToLower | app/Http/Middleware/ValidateIdentifierHeader.php:11 | the result has the input's length and holds the ASCII lower case of each character |
| IdentifierHeader.Handle | app/Http/Middleware/ValidateIdentifierHeader.php:11-22 | a passed request carries "id" or "number"; a missing header is rejected |
| IdentifierHeader.LowerIffSpelled | app/Http/Middleware/ValidateIdentifierHeader.php:11 | lower-casing gives a lower-case word exactly for that word's case variants |
| IdentifierHeader.HandleAcceptsExactly | app/Http/Middleware/ValidateIdentifierHeader.php:11-20 | the accepted headers are exactly the case variants of "id" and "number", passed on as the lower-case word; all others get 400 |
| IdentifierHeader.HandleNormalised | app/Http/Middleware/ValidateIdentifierHeader.php:20 | the identifier type handed on is accepted again unchanged (normalisation is idempotent) |
| IdentifierHeader.HandleExamples | app/Http/Middleware/ValidateIdentifierHeader.php:11-17 | "ID" and "Number" pass as "id" and "number"; a missing header is rejected |
| Ledger.TotalNonNegative | app/Http/Controllers/TransferController.php:42-44 | when no balance is negative, the total held is not negative |
| BankAccounts.DepositCheck | app/Http/Controllers/BankAccountController.php:17-19 | the deposit passes exactly when it is present, numeric and non-negative |
| BankAccounts.OpenEffects | app/Http/Controllers/BankAccountController.php:13-31 | a rejected deposit gives 422 and changes nothing; an accepted one gives 201 and appends one row with these properties: owned by the caller, balance equal to the deposit, number starting "ACC-", fresh id, transfers untouched, total raised by the deposit, store still valid |
| BankAccounts.OwnedExact | app/Http/Controllers/BankAccountController.php:34-39 | the listing holds exactly the caller's rows, each as often as stored |
| BankAccounts.IndexAfterOpen | app/Http/Controllers/BankAccountController.php:21-36 | after opening, the owner's listing gains the new account at the end; every other listing is unchanged |
| BankAccounts.Show | app/Http/Controllers/BankAccountController.php:42-53 | a found account is stored, owned by the caller and matches in the chosen column; 404 exactly when none of the caller's accounts matches |
| BankAccounts.ShowById | app/Http/Controllers/BankAccountController.php:45-46 | by id, row `n` is shown (200) exactly when it exists and belongs to the caller; another owner's account is 404 like a missing one |
| BankAccounts.ShowAfterOpen | app/Http/Controllers/BankAccountController.php:21-46 | the account just opened is shown to its owner by its id and is 404 for everyone else |
| BankAccounts.Balance | app/Http/Controllers/BankAccountController.php:65-68 | the currency reported is always "GBP" |
| BankAccounts.BalanceAgreesWithShow | app/Http/Controllers/BankAccountController.php:55-68 | `balance` is 404 exactly when `show` is, and otherwise reports the shown account's balance in GBP |
| Transfers.Decide | app/Http/Controllers/TransferController.php:18-44 | a move has a source owned by the caller, matching `from_account` in the chosen column, with balance at least the amount; a destination matching `to_account`; and an amount of at least one penny |
| Transfers.Settle | app/Http/Controllers/TransferController.php:27-44 | after validation, a move's source is the caller's first match for `from_account` and its destination the first match of `to_account` among all rows, and the source covers the amount; every refusal here is 404 or 403 |
| Transfers.TransferOutcomes | app/Http/Controllers/TransferController.php:20-61 | the outcomes in order, each with its status code: 422 with exactly the failing fields; else 404 exactly when the caller owns no matching source; else 403 exactly when the balance is below the amount; else 201, whoever owns the destination |
| Transfers.ValidationFailures | app/Http/Controllers/TransferController.php:20-24 | a missing or empty `from_account`, `to_account` or `amount`, alone or with others, gives 422 naming that field (all three when all are missing); so do a non-numeric amount, an amount below 0.01, an unknown identifier and a destination equal to the source; none of them changes anything |
| Transfers.RefusalChangesNothing | app/Http/Controllers/TransferController.php:20-44 | any refused request (422, 404, 403) leaves both tables unchanged |
| Transfers.TransferEffects | app/Http/Controllers/TransferController.php:46-61 | a 201 appends exactly one row (fresh id, source id, destination id, amount, time). The source loses the amount and the destination gains it (when they differ). No other row and no other field changes |
| Transfers.ApplyEffects | app/Http/Controllers/TransferController.php:46-59 | the atomic unit appends one row with the source and destination ids, debits the source and credits the destination (no net change when they are the same row), and changes no other row or field |
| Transfers.ApplyConserves | app/Http/Controllers/TransferController.php:48-49 | the debit and the credit together leave the sum of all balances unchanged |
| Transfers.ApplyPreservesValid | app/Http/Controllers/TransferController.php:42-56 | on a valid store, a positive amount the source can cover keeps every balance non-negative and records a transfer between existing accounts |
| Transfers.TransferConservesMoney | app/Http/Controllers/TransferController.php:48-49 | every outcome leaves the sum of all balances unchanged |
| Transfers.TransferPreservesValid | app/Http/Controllers/TransferController.php:42-56 | every outcome keeps the store valid: ids intact, no negative balance, every transfer between existing accounts with a positive amount |
| Transfers.NumberTransfersAreBetweenTwoAccounts | app/Http/Controllers/TransferController.php:33-39 | with identifier type "number", a successful transfer always links two different accounts (account numbers compared byte for byte) |
| Transfers.DecideById | app/Http/Controllers/TransferController.php:20-44 | by id, between two different existing rows with a positive amount: 404 unless the caller owns the source, else 403 when its balance is short, else a move between those two rows |
| Transfers.TransferExample | app/Http/Controllers/TransferController.php:42-61 | 1000.00 and 500.00, 200.00 moved by id: 800.00 and 700.00 and one transfer row |
| Transfers.InsufficientFundsExample | app/Http/Controllers/TransferController.php:42-44 | 200.00 from a balance of 100.00 is 403 and the ledger is untouched |
| Transfers.InvolvingExact | app/Http/Controllers/TransferController.php:70-71 | the filter keeps exactly the rows whose sender or receiver is the account, each as often as stored |
| Transfers.InsertNewestFirst | app/Http/Controllers/TransferController.php:72 | inserting into a newest-first sequence keeps it newest first and adds exactly that row |
| Transfers.SortNewestFirst | app/Http/Controllers/TransferController.php:72 | the result is ordered by created_at descending and is a permutation of the input |
| Transfers.History | app/Http/Controllers/TransferController.php:64-76 | 404 exactly when none of the caller's accounts has that id; the listing is newest first |
| Transfers.HistoryLists | app/Http/Controllers/TransferController.php:64-76 | for an account the caller owns, the listing holds exactly the transfers it sent or received, newest first |
| Transfers.HistoryEmpty | app/Http/Controllers/TransferController.php:70-75 | an owned account with no transfers gets an empty listing, not an error |
| Transfers.TransferShowsInHistory | app/Http/Controllers/TransferController.php:51-55 | after a successful transfer the new row is in the history of the source and of the destination, for their owners |
| Transfers.HistoryByKind | app/Http/Controllers/TransferController.php:64-76 | (corrected) the listing is newest first |
| Transfers.HistoryByKindAgreesWithShow | app/Http/Controllers/BankAccountController.php:44-51 | (corrected) history resolves exactly like `show`: 404 when `show` is, otherwise the transfers of the shown account; with type "id" it equals the code as written |
| Transfers.HistoryIgnoresIdentifierType | app/Http/Controllers/TransferController.php:66-68 | (finding) the caller's own account named by number under type "number" is 404 in `history` although `show` finds it |
| Transfers.CheckedAgreesUnlessSameRow | app/Http/Controllers/TransferController.php:20-24 | (corrected) the corrected rule is a validation rule: a request whose two identifiers select the same row gets 422 with `to_account` among the failing fields, before the ownership and funds checks; every other request is decided as the code decides it |
| Transfers.CheckedSourceIsNotTarget | app/Http/Controllers/TransferController.php:27-39 | (corrected) a move allowed by the corrected rule never has the same row as source and destination, for either identifier type |
| Transfers.CheckedTransfersAreBetweenTwoAccounts | app/Http/Controllers/TransferController.php:22 | (corrected) every recorded transfer links two different accounts; the source loses and the destination gains exactly the amount |
| Transfers.SelfTransferThroughLeadingZero | app/Http/Controllers/TransferController.php:22 | (finding) with type "id", "1" to "01" passes `different`; it is recorded as a transfer from account 1 to itself, and the corrected rule gives 422 |
| BankStore.Bank.OpenAccount | app/Http/Controllers/BankAccountController.php:13-31 | updates the fields exactly as `Open` specifies, keeps the store valid, raises the total by the deposit and leaves it non-negative |
| BankStore.Bank.Transfer | app/Http/Controllers/TransferController.php:13-62 | updates the fields exactly as `Execute` specifies, keeps the store valid and the total unchanged and non-negative; a refusal changes nothing |
| Gateway.HeaderGate | app/Http/Middleware/ValidateIdentifierHeader.php:13-22 | a rejected header gives 400 on every guarded route and leaves the ledger unchanged; with any case variant of "id" or "number", each of the four routes (transfer with its new ledger, show, balance, history) answers exactly what its controller answers for the lower-case word |
| Gateway.PassedTypeSelectsColumn | app/Http/Controllers/BankAccountController.php:45-50 | past the middleware, a variant of "id" selects `id`; the only other arriving value, a variant of "number", selects `account_number`, so the controllers' else branch means "number" |

## Findings

| source | as written | input that shows it | evidently intended | confidence | as-written member | corrected member |
|---|---|---|---|---|---|---|
| app/Http/Controllers/TransferController.php:64-68 | `history` always compares the path identifier with the `id` column, ignoring the identifier type | type "number", identifier "ACC-482910", which is the caller's own account: 404 | resolve by the identifier type like `show` and `balance`; the route sits behind the same middleware, and tests/Feature/TransferControllerTest.php:393-428 expects 200 | high, not executed | Transfers.HistoryIgnoresIdentifierType | Transfers.HistoryByKindAgreesWithShow |
| app/Http/Controllers/TransferController.php:22 | `different:from_account` compares the raw request values, not the resolved accounts | type "id", from "1", to "01" (both select account 1; likewise the JSON integer 1 and the string "1"): 201, and a transfer from account 1 to itself is recorded | reject with 422, as a validation failure on `to_account`, a transfer whose two identifiers select the same account, however they are spelled | medium (relies on the database reading "01" as 1), not executed | Transfers.SelfTransferThroughLeadingZero | Transfers.CheckedTransfersAreBetweenTwoAccounts |

`Transfers.Execute` and `BankStore.Bank.Transfer` keep the code's behaviour. The corrected
versions are `Transfers.ExecuteChecked` and `Transfers.HistoryByKind`, with the
properties above proved about them.

## Left out

- Authentication (`auth:sanctum`) and the API-key middleware: the caller's user id is a parameter, and 401 is not modelled.
- Routing and 405 responses: `Gateway` only models the identifier-type middleware placed in front of the four guarded actions.
- The 500 "Transfer failed" path: the database transaction is one all-or-nothing step, and database exceptions are not modelled.
- Concurrency: the funds check runs outside the transaction, so two concurrent debits can both pass it. The model is sequential.
- Decimal amounts: money is whole pence. An amount with fractional pence, which `numeric|min:0.01` accepts, cannot be expressed.
- `MoneyInput.NotNumeric` stands for every non-numeric value; numeric strings count as numbers.
- Account numbers: the `uniqid()` part is the parameter `suffix`. A collision, or a unique index on the column, is not modelled.
- Account numbers match byte for byte, as under a binary collation. Under a case-insensitive collation, "ACC-65f1a" and "acc-65f1a" select the same row, so a lookup by a case variant would succeed where the model answers 404, and a transfer between two case variants would pass `different` and move money from an account to itself. `Transfers.NumberTransfersAreBetweenTwoAccounts` holds only under this byte-for-byte matching.
- Row order: rows are kept in id order, and `Resolver.Locate` returns the first match in that order. `firstOrFail` and `get()` issue no ORDER BY, so the database may pick another matching row or list rows in another order. This is a modelling choice. It matters only where several rows match (duplicate account numbers) and for the order of `index`; `BankAccounts.IndexAfterOpen` ("at the end") relies on it.
- Timestamps: `created_at` is the parameter `now`; `updated_at` is not modelled. Rows with equal `created_at` are listed in stored order. The database leaves that order unspecified.
- Identifier coercion: an identifier matches the `id` column only when it is a plain digit string. Other database coercions (signs, spaces, "7.0") are treated as no match.
- Empty strings count as missing (`required`). Whitespace trimming is not modelled.
- Request identifiers are strings: a JSON number is read as its decimal spelling. The type-strict comparison of `different` (the integer 1 against the string "1", or 1 against 1.0) is therefore not captured; such a pair is equal in the model and gets 422, where the code lets it through as a transfer from an account to itself.
- JSON parsing, malformed bodies, and response message texts and JSON shapes: responses carry only the status variant and the data the properties need.
- `strtolower` is modelled as ASCII lower-casing.
- `BankAccounts.Index` and the filter `BankAccounts.Owned` it applies (the `where('user_id', ...)->get()` query of BankAccountController.php:36) have no contract of their own; `BankAccounts.OwnedExact` and `BankAccounts.IndexAfterOpen` state what they return.
- `Transfers.Involving` (the `from_account_id`/`to_account_id` filter of TransferController.php:70-71) has no contract of its own; `Transfers.InvolvingExact` and `Transfers.HistoryLists` state what it returns.
- `BankAccounts.Open` (the `store` action of BankAccountController.php:13-31) has no contract of its own; `BankAccounts.OpenEffects`, `BankAccounts.IndexAfterOpen`, `BankAccounts.ShowAfterOpen` and `BankStore.Bank.OpenAccount` state what it returns.
- `Transfers.Violations` (the `validate` call of TransferController.php:20-24) has no contract of its own; `Transfers.TransferOutcomes` and `Transfers.ValidationFailures` state which fields it reports.
- `Transfers.Apply` (the transaction of TransferController.php:46-56) has no contract of its own; `Transfers.ApplyEffects`, `Transfers.ApplyConserves` and `Transfers.ApplyPreservesValid` state what it does.
- `Transfers.Execute` (the `store` action of TransferController.php:13-62) has no contract of its own; `Transfers.TransferOutcomes`, `Transfers.TransferEffects`, `Transfers.RefusalChangesNothing`, `Transfers.TransferConservesMoney`, `Transfers.TransferPreservesValid` and `BankStore.Bank.Transfer` state what it returns.
- `Transfers.DecideChecked` and `Transfers.ExecuteChecked` (the corrected `store`) have no contract of their own; `Transfers.CheckedAgreesUnlessSameRow`, `Transfers.CheckedSourceIsNotTarget` and `Transfers.CheckedTransfersAreBetweenTwoAccounts` state what they return.
- `Gateway.PostTransfer`, `Gateway.GetAccount`, `Gateway.GetBalance` and `Gateway.GetHistory` (the four routes behind `validate.identifier` in routes/api.php:17-21) have no contract of their own; `Gateway.HeaderGate` states what each returns.
- database/factories and the test-only direct deposits: not modelled.
