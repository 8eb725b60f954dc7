# Account demo transaction ledger in Dafny

This project models the transaction ledger of the account demo service:
`TransactionService` and the failure recording that `TransactionController`
wraps around it. The Java service keeps three repositories:

- users (`AccountUser`: id and name);
- accounts (id, account number, owner id, balance, status). The code tests only for `IN_USE`
  (TransactionService.java:61). The second status, `Unregistered` in the model, is inferred from
  the error code `ACCOUNT_ALREADY_UNREGISTERED`. No other status value appears in the code;
- an append-only table of transactions (transaction id, account, type USE/CANCEL,
  result S/F, amount, balance snapshot, time).

It offers five operations: `useBalance`, `saveFailedUseTransaction`,
`cancelBalance`, `saveFailedCancelTransaction` and `queryTransaction`. Each
exception (`AccountException` with an `ErrorCode`) becomes an `Err(code)` value.

The files:

- `domain.dfy` (module `Domain`) holds the entities, `ErrorCode` and the result types.
  `Account.UseBalance` is the debit `balance := balance - amount`.
- `journal.dfy` (module `Journal`) models the transaction table as a sequence of rows in save order.
  It defines `findByTransactionId`, the newest row of an account, and lemmas about saving one more row.
- `validation.dfy` (module `Validation`) holds `validateUseBalance` and `validateCancelBalance` as
  functions over loaded entities. Each reports the first rule that fails, in the code's order.
- `ledger.dfy` (module `Ledger`) gives each service operation as a function from the stores before
  the call to the result and the stores after it. It also states the ledger invariant, proves that
  every operation keeps it, and proves the properties that relate several calls.
- `service.dfy` (module `Service`) holds the class `TransactionService`. Its fields are the three
  repositories. `UseBalance` and `CancelBalance` look up and validate, then debit the account in place
  and append one row. `SaveFailedUseTransaction` and `SaveFailedCancelTransaction` look up the account
  and append one row without touching any balance. `QueryTransaction` only reads. Each method is
  proved to do what the matching `Ledger` function says.
- `controller.dfy` (module `Controller`) holds the try/catch composition as the functions
  `HandleUse` and `HandleCancel`, and the class `TransactionController`, whose methods call
  the service object.

The ledger invariant (`Ledger.Invariant`) has four parts:

- users are filed under their ids;
- accounts are filed under their numbers and have distinct ids;
- transaction ids are unique;
- the newest row about each account records that account's current balance.

### Behaviour as written

The model follows the code, including these behaviours:

- **Cancel debits again.** `cancelBalance` calls the same `account.useBalance(amount)` as `useBalance`.
  `Ledger.CancelDebitsLikeUse` proves that a successful cancel changes the accounts exactly
  as a successful use does. `Ledger.UseThenCancelDebitsTwice` proves that cancelling a fresh use
  takes the amount off twice. With `Account.useBalance` modelled as plain subtraction, a cancel of a
  use that spent the whole balance leaves it negative.
- **No "already cancelled" check.** Cancel never marks or changes the original row.
  `Ledger.CancelRepeats` proves that the same cancel succeeds again and debits again.
- **Cancel does not check the balance, the type or the result of the original.**
  `Validation.ValidateCancelBalance` states when it passes, and none of these appear in that condition.
- **Failed cancels are saved as `S`.** `saveFailedCancelTransaction` saves result `S`, not `F`.
  `Controller.RejectedCancelLooksSuccessful` proves that after a rejected cancel, the newest row of
  the account is a CANCEL/S row, even though no balance moved.
- **No positive-amount check.** A zero or negative amount passes validation when the other rules hold.

Other facts about the code that the model keeps:

- `cancelBalance` debits through `account.useBalance(amount)` (TransactionService.java:95). Nothing
  in the code credits an account.
- `validateUseBalance` has no rule about the amount itself (TransactionService.java:57-67).
- There is no locking and no compare-and-set beyond `@Transactional`.
- With `Account.useBalance` modelled as plain subtraction, a balance can become negative through a
  cancel, and a balance cannot be rebuilt from the rows: a failed cancel saves a CANCEL/S row that
  moved nothing. The lemmas above show both.

Error codes use Dafny's PascalCase. For example, `USER_ACCOUNT_UN_MATCH` is `UserAccountUnMatch`
and `CANCEL_MUST_FULLY` is `CancelMustFully`.

## Model

| member | source | states |
|---|---|---|
| `Journal.FindByTransactionId` | src/main/java/com/example/accountdemo/service/TransactionService.java:88-89 | a found row is stored and carries the id asked for; nothing is found exactly when no stored row has that id |
| `Journal.FindAfterAppend` | src/main/java/com/example/accountdemo/service/TransactionService.java:97-106 | after saving a row with a fresh id, that id finds the new row and every other id finds what it found before |
| `Journal.FindStored` | src/main/java/com/example/accountdemo/service/TransactionService.java:140-144 | with unique ids, every stored row is what its own id finds |
| `Journal.UniqueAfterAppend` | src/main/java/com/example/accountdemo/service/TransactionService.java:81 | saving a row under a fresh UUID keeps transaction ids unique |
| `Journal.LatestAfterAppend` | src/main/java/com/example/accountdemo/service/TransactionService.java:127-137 | after a save, an account's newest row is the saved row if it refers to that account, and the previous newest row otherwise |
| `Validation.ValidateUseBalance` | src/main/java/com/example/accountdemo/service/TransactionService.java:57-67 | owner mismatch gives `UserAccountUnMatch`; otherwise a status other than `InUse` gives `AccountAlreadyUnregistered`; otherwise balance < amount gives `AmountExceedBalance`; it passes exactly when all three hold (amount == balance passes), and passing guarantees a non-negative balance after the debit |
| `Validation.ValidateCancelBalance` | src/main/java/com/example/accountdemo/service/TransactionService.java:110-120 | a different account gives `TransactionAccountUnMatch`; otherwise a different amount gives `CancelMustFully`; otherwise a time strictly before one year before now gives `TooOldOrderToCancel`; it passes exactly when the account and amount match and the time is not before the cutoff (exactly one year is allowed) |
| `Ledger.UseBalance` | src/main/java/com/example/accountdemo/service/TransactionService.java:34-55 | `UserNotFound` before `AccountNotFound` before the validation's first failure, and it succeeds exactly when validation passes; success debits only that account to old − amount (≥ 0), changes no user, and appends exactly one USE/S row with the fresh id, the amount, the time and a snapshot equal to the new balance |
| `Ledger.SaveFailedUseTransaction` | src/main/java/com/example/accountdemo/service/TransactionService.java:70-85 | fails exactly when the account is absent, with `AccountNotFound`; otherwise it changes no account and appends exactly one USE/F row carrying the amount and the current balance |
| `Ledger.CancelBalance` | src/main/java/com/example/accountdemo/service/TransactionService.java:87-108 | `TransactionNotFound` before `AccountNotFound` before the cancel validation's first failure, and it succeeds exactly when validation passes; success debits only that account by the amount and appends exactly one CANCEL/S row whose snapshot is the new balance |
| `Ledger.SaveFailedCancelTransaction` | src/main/java/com/example/accountdemo/service/TransactionService.java:123-138 | fails exactly when the account is absent, with `AccountNotFound`; otherwise it changes no account and appends exactly one CANCEL row with result S carrying the amount and the current balance |
| `Ledger.QueryTransaction` | src/main/java/com/example/accountdemo/service/TransactionService.java:140-144 | returns a stored row with the id asked for, or `TransactionNotFound` exactly when there is none |
| `Ledger.SavedKeepsInvariant` | src/main/java/com/example/accountdemo/service/TransactionService.java:43-53 | saving one row under a fresh id, with the new balance of its account as snapshot, keeps unique ids and keeps every account's newest row equal to its balance |
| `Ledger.UseBalanceKeepsInvariant` | src/main/java/com/example/accountdemo/service/TransactionService.java:41-53 | a successful use keeps the ledger invariant |
| `Ledger.SaveFailedUseKeepsInvariant` | src/main/java/com/example/accountdemo/service/TransactionService.java:74-84 | a saved failed-use row keeps the ledger invariant |
| `Ledger.CancelBalanceKeepsInvariant` | src/main/java/com/example/accountdemo/service/TransactionService.java:95-107 | a successful cancel keeps the ledger invariant |
| `Ledger.SaveFailedCancelKeepsInvariant` | src/main/java/com/example/accountdemo/service/TransactionService.java:127-137 | a saved failed-cancel row keeps the ledger invariant |
| `Ledger.QueryReturnsStored` | src/main/java/com/example/accountdemo/service/TransactionService.java:141-142 | under the invariant, querying a stored row's id returns that row unchanged |
| `Ledger.QueryAfterSave` | src/main/java/com/example/accountdemo/service/TransactionService.java:43-53 | after a save under a fresh id, that id queries to the new row and every other id queries as before, so earlier rows are never modified |
| `Ledger.CancelDebitsLikeUse` | src/main/java/com/example/accountdemo/service/TransactionService.java:95 | from the same stores, a successful cancel and a successful use of the same amount on the same account leave identical accounts |
| `Ledger.UseThenCancelDebitsTwice` | src/main/java/com/example/accountdemo/service/TransactionService.java:87-107 | cancelling a use just saved (within a year) succeeds and leaves old balance − 2·amount, which is negative when the use spent the whole positive balance |
| `Ledger.CancelRepeats` | src/main/java/com/example/accountdemo/service/TransactionService.java:110-120 | a successful cancel keeps the original row findable as before, and repeating the cancel under a fresh id succeeds and debits a second time |
| `Ledger.UseScenario` | src/test/java/com/example/accountdemo/service/TransactionServiceTest.java:40-61 | the test's case: user 12 owning an account with 10000, using 1000 gives a USE/S row of 1000 with snapshot 9000 |
| `Ledger.UseExceedingBalanceScenario` | src/main/java/com/example/accountdemo/service/TransactionService.java:64-65 | on the same account, using 20000 is refused by the validation's balance rule with `AmountExceedBalance` |
| `Service.TransactionService.constructor` | src/main/java/com/example/accountdemo/service/TransactionService.java:29-31 | repositories with the given well-formed users and accounts and no transaction satisfy the invariant |
| `Service.TransactionService.UseBalance` | src/main/java/com/example/accountdemo/service/TransactionService.java:34-55 | returns and leaves exactly what `Ledger.UseBalance` gives; on failure the state is unchanged; the invariant is kept |
| `Service.TransactionService.SaveFailedUseTransaction` | src/main/java/com/example/accountdemo/service/TransactionService.java:70-85 | returns and leaves exactly what `Ledger.SaveFailedUseTransaction` gives; on failure the state is unchanged; the invariant is kept |
| `Service.TransactionService.CancelBalance` | src/main/java/com/example/accountdemo/service/TransactionService.java:87-108 | returns and leaves exactly what `Ledger.CancelBalance` gives; on failure the state is unchanged; the invariant is kept |
| `Service.TransactionService.SaveFailedCancelTransaction` | src/main/java/com/example/accountdemo/service/TransactionService.java:123-138 | returns and leaves exactly what `Ledger.SaveFailedCancelTransaction` gives; on failure the state is unchanged; the invariant is kept |
| `Service.TransactionService.QueryTransaction` | src/main/java/com/example/accountdemo/service/TransactionService.java:140-144 | changes nothing; returns a stored row with that id, or `TransactionNotFound` exactly when there is none |
| `Controller.HandleUse` | src/main/java/com/example/accountdemo/controller/TransactionController.java:29-41 | a service success is returned unchanged and no failure row is written; a service rejection on an existing account, `UserNotFound` included, rethrows the same error, leaves every user and balance unchanged, and appends exactly one USE/F row with the request's amount and the current balance; with no such account the recording call's `AccountNotFound` is what surfaces, even after `UserNotFound`, and nothing changes; the table grows by one exactly when the account exists |
| `Controller.HandleCancel` | src/main/java/com/example/accountdemo/controller/TransactionController.java:51-63 | a service success is returned unchanged with no failure row; a rejection on an existing account rethrows the same error, leaves balances unchanged and appends exactly one CANCEL row with result S; with no such account `AccountNotFound` surfaces and nothing changes; the table grows by one exactly when the account exists |
| `Controller.HandleUseKeepsInvariant` | src/main/java/com/example/accountdemo/controller/TransactionController.java:29-41 | a handled use request keeps the ledger invariant on every path |
| `Controller.HandleCancelKeepsInvariant` | src/main/java/com/example/accountdemo/controller/TransactionController.java:51-63 | a handled cancel request keeps the ledger invariant on every path |
| `Controller.RejectedUseLeavesAuditRow` | src/main/java/com/example/accountdemo/controller/TransactionController.java:33-41 | after a rejected use on an existing account, the USE/F row is queryable under the new id, is the account's newest row, and every other id queries as before |
| `Controller.RejectedCancelLooksSuccessful` | src/main/java/com/example/accountdemo/controller/TransactionController.java:55-63 | after a rejected cancel on an existing account, no balance moved, yet the account's newest row, queryable under the new id, reads CANCEL/S with the request's amount and the unchanged balance |
| `Controller.TransactionController.constructor` | src/main/java/com/example/accountdemo/controller/TransactionController.java:21-23 | the controller holds the service object it is given, as its final injected field |
| `Controller.TransactionController.UseBalance` | src/main/java/com/example/accountdemo/controller/TransactionController.java:26-45 | answers and leaves the service state exactly as `Controller.HandleUse` says, keeping the invariant |
| `Controller.TransactionController.CancelBalance` | src/main/java/com/example/accountdemo/controller/TransactionController.java:48-67 | answers and leaves the service state exactly as `Controller.HandleCancel` says, keeping the invariant |
| `Controller.TransactionController.QueryTransaction` | src/main/java/com/example/accountdemo/controller/TransactionController.java:69-77 | passes straight through to the service query, with no failure recording and no state change |

## Left out

- Spring and JPA plumbing is left out: repositories, `@Transactional` rollback, request mapping and
  `@Valid`, and logging. The repositories are maps and a sequence inside one object.
- The DTO conversions (`TransactionDto.fromEntity`, `UseBalance.Response.from`,
  `CancelBalance.Response.from`, `QueryTransactionResponse.from`) are taken as the row itself.
- `Account.java` is not part of this model. Its `useBalance` is modelled as `balance := balance - amount`,
  with no check of its own (the service test shows 10000 − 1000 giving 9000).
- Balances, amounts and ids are unbounded integers. Java `Long` overflow of `balance - amount`
  (possible with a negative amount) is not modelled.
- Nulls are left out: null fields, `Objects.equals` on nulls, and an account built without a status.
- The clock is a parameter `now`, read once per call. The Java code reads `LocalDateTime.now()`
  separately in the age check and when building the row; the model uses one reading for both.
  `minusYears(1)` is the parameter `oneYearBefore`, a function that is not interpreted, so calendar
  arithmetic and leap years are left out.
- UUID generation is the parameter `newId`. The methods require that it is not already in the table,
  as a random UUID is assumed to be.
- The Java service mutates the loaded `Account` entity in place. The model replaces that account's map
  entry, so aliasing between entity objects is not modelled. A transaction row refers to its account by id.
- The storage-internal row id of `Transaction` is left out.
- Concurrency, locking and the ordering of concurrent requests are left out. The code has none beyond
  `@Transactional`.
- `AccountInfo.java` (a field-only DTO) and `AccountServiceTest.java` (about an `AccountService`
  that is not part of this model) are left out.
