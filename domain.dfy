/** Entities of the account demo's transaction ledger: users, accounts,
    transaction records and the error codes the service raises. */
module Domain {

  /** Database ids (Java `Long`), amounts and balances are unbounded here. */
  type UserId = int
  type AccountId = int
  type AccountNumber = string
  type TransactionId = string

  /** A timestamp; only its order matters to the ledger. */
  type Time = int

  datatype Option<T> = None | Some(value: T)

  /** The code only ever tests for `IN_USE`; the other value stands for the
      state its `ACCOUNT_ALREADY_UNREGISTERED` error names. */
  datatype AccountStatus = InUse | Unregistered

  datatype AccountUser = AccountUser(id: UserId, name: string)

  /** An account row. `ownerId` is the id of the `AccountUser` it refers to. */
  datatype Account = Account(
    id: AccountId,
    accountNumber: AccountNumber,
    ownerId: UserId,
    balance: int,
    status: AccountStatus)
  {
    /** `Account.useBalance(amount)`: the debit both use and cancel apply. */
    function UseBalance(amount: int): Account {
      this.(balance := balance - amount)
    }
  }

  datatype TransactionType = Use | Cancel

  /** `S` for a successful transaction, `F` for a failed one. */
  datatype TransactionResultType = S | F

  /** A row of the transaction table. `accountId` is the id of the account it
      refers to; `balanceSnapshot` is that account's balance when the row was
      written. */
  datatype Transaction = Transaction(
    transactionId: TransactionId,
    accountId: AccountId,
    transactionType: TransactionType,
    resultType: TransactionResultType,
    amount: int,
    balanceSnapshot: int,
    transactedAt: Time)

  /** The `ErrorCode` values an `AccountException` of the ledger can carry. */
  datatype ErrorCode =
    | UserNotFound
    | AccountNotFound
    | TransactionNotFound
    | UserAccountUnMatch
    | AccountAlreadyUnregistered
    | AmountExceedBalance
    | TransactionAccountUnMatch
    | CancelMustFully
    | TooOldOrderToCancel

  /** A value, or the error code of the `AccountException` thrown instead. */
  datatype Result<T> = Ok(value: T) | Err(error: ErrorCode)

  /** Passing, or the error code of the exception thrown by a `void` method. */
  datatype Outcome = Pass | Fail(error: ErrorCode)
}
