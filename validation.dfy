/** The two validation steps of the transaction service, over entities that
    have already been loaded. Each reports the first rule that fails. */
module Validation {
  import opened Domain

  /** `validateUseBalance`: the owner, then the status, then the balance. */
  function ValidateUseBalance(user: AccountUser, account: Account, amount: int): (r: Outcome)
    ensures r == Fail(UserAccountUnMatch) <==> user.id != account.ownerId
    ensures r == Fail(AccountAlreadyUnregistered)
        <==> user.id == account.ownerId && account.status != InUse
    ensures r == Fail(AmountExceedBalance)
        <==> user.id == account.ownerId && account.status == InUse && account.balance < amount
    ensures r == Pass
        <==> user.id == account.ownerId && account.status == InUse && amount <= account.balance
    ensures r == Pass ==> account.UseBalance(amount).balance >= 0
  {
    if user.id != account.ownerId then Fail(UserAccountUnMatch)
    else if account.status != InUse then Fail(AccountAlreadyUnregistered)
    else if account.balance < amount then Fail(AmountExceedBalance)
    else Pass
  }

  /** `validateCancelBalance`: the account, then the amount, then the age.
      `oneYearBefore` stands for `minusYears(1)` on the clock; a transaction
      made exactly one year before `now` may still be cancelled. Nothing here
      looks at the balance, the type or the result of the original. */
  function ValidateCancelBalance(
    original: Transaction, account: Account, amount: int,
    now: Time, oneYearBefore: Time -> Time): (r: Outcome)
    ensures r == Fail(TransactionAccountUnMatch) <==> original.accountId != account.id
    ensures r == Fail(CancelMustFully)
        <==> original.accountId == account.id && original.amount != amount
    ensures r == Fail(TooOldOrderToCancel)
        <==> original.accountId == account.id && original.amount == amount
             && original.transactedAt < oneYearBefore(now)
    ensures r == Pass
        <==> original.accountId == account.id && original.amount == amount
             && oneYearBefore(now) <= original.transactedAt
  {
    if original.accountId != account.id then Fail(TransactionAccountUnMatch)
    else if original.amount != amount then Fail(CancelMustFully)
    else if original.transactedAt < oneYearBefore(now) then Fail(TooOldOrderToCancel)
    else Pass
  }
}
