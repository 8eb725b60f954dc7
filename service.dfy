/** `TransactionService` as an object over its three repositories. Use and
    cancel do their look-ups and validation first, then debit the account in
    place and save one row; the two failure recorders save one row and change
    no balance; the query only reads. Each is proved to do what the matching
    function of `Ledger` says and to keep the ledger invariant. */
module Service {
  import opened Domain
  import opened Journal
  import opened Validation
  import Ledger

  class TransactionService {
    var users: map<UserId, AccountUser>
    var accounts: map<AccountNumber, Account>
    var transactions: seq<Transaction>

    function State(): Ledger.Store
      reads this
    {
      Ledger.Store(users, accounts, transactions)
    }

    ghost predicate Valid()
      reads this
    {
      Ledger.Invariant(State())
    }

    /** Repositories holding the given users and accounts and no transaction. */
    constructor (users: map<UserId, AccountUser>, accounts: map<AccountNumber, Account>)
      requires Ledger.UsersWellFormed(users) && Ledger.AccountsWellFormed(accounts)
      ensures Valid()
      ensures State() == Ledger.Store(users, accounts, [])
    {
      this.users := users;
      this.accounts := accounts;
      this.transactions := [];
    }

    /** `useBalance`. `newId` is the fresh UUID and `now` the clock reading. */
    method UseBalance(userId: UserId, accountNumber: AccountNumber, amount: int,
                      now: Time, newId: TransactionId) returns (r: Result<Transaction>)
      requires Valid() && IsFresh(transactions, newId)
      modifies this
      ensures Valid()
      ensures match Ledger.UseBalance(old(State()), userId, accountNumber, amount, now, newId)
              case Ok(step) => r == Ok(step.record) && State() == step.after
              case Err(e) => r == Err(e) && State() == old(State())
    {
      if userId !in users {
        return Err(UserNotFound);
      }
      var user := users[userId];
      if accountNumber !in accounts {
        return Err(AccountNotFound);
      }
      var account := accounts[accountNumber];
      var v := ValidateUseBalance(user, account, amount);
      if v.Fail? {
        return Err(v.error);
      }
      account := account.UseBalance(amount);
      accounts := accounts[accountNumber := account];
      var t := Transaction(newId, account.id, Use, S, amount, account.balance, now);
      transactions := transactions + [t];
      Ledger.UseBalanceKeepsInvariant(old(State()), userId, accountNumber, amount, now, newId);
      return Ok(t);
    }

    /** `saveFailedUseTransaction`. */
    method SaveFailedUseTransaction(accountNumber: AccountNumber, amount: int,
                                    now: Time, newId: TransactionId) returns (r: Outcome)
      requires Valid() && IsFresh(transactions, newId)
      modifies this
      ensures Valid()
      ensures match Ledger.SaveFailedUseTransaction(old(State()), accountNumber, amount, now, newId)
              case Ok(step) => r == Pass && State() == step.after
              case Err(e) => r == Fail(e) && State() == old(State())
    {
      if accountNumber !in accounts {
        return Fail(AccountNotFound);
      }
      var account := accounts[accountNumber];
      var t := Transaction(newId, account.id, Use, F, amount, account.balance, now);
      transactions := transactions + [t];
      Ledger.SaveFailedUseKeepsInvariant(old(State()), accountNumber, amount, now, newId);
      return Pass;
    }

    /** `cancelBalance`. `oneYearBefore` is the clock's `minusYears(1)`. */
    method CancelBalance(transactionId: TransactionId, accountNumber: AccountNumber, amount: int,
                         now: Time, oneYearBefore: Time -> Time, newId: TransactionId)
      returns (r: Result<Transaction>)
      requires Valid() && IsFresh(transactions, newId)
      modifies this
      ensures Valid()
      ensures match Ledger.CancelBalance(old(State()), transactionId, accountNumber, amount,
                                         now, oneYearBefore, newId)
              case Ok(step) => r == Ok(step.record) && State() == step.after
              case Err(e) => r == Err(e) && State() == old(State())
    {
      var found := FindByTransactionId(transactions, transactionId);
      if found.None? {
        return Err(TransactionNotFound);
      }
      var original := found.value;
      if accountNumber !in accounts {
        return Err(AccountNotFound);
      }
      var account := accounts[accountNumber];
      var v := ValidateCancelBalance(original, account, amount, now, oneYearBefore);
      if v.Fail? {
        return Err(v.error);
      }
      account := account.UseBalance(amount);
      accounts := accounts[accountNumber := account];
      var t := Transaction(newId, account.id, Cancel, S, amount, account.balance, now);
      transactions := transactions + [t];
      Ledger.CancelBalanceKeepsInvariant(old(State()), transactionId, accountNumber, amount,
                                         now, oneYearBefore, newId);
      return Ok(t);
    }

    /** `saveFailedCancelTransaction`. */
    method SaveFailedCancelTransaction(accountNumber: AccountNumber, amount: int,
                                       now: Time, newId: TransactionId) returns (r: Outcome)
      requires Valid() && IsFresh(transactions, newId)
      modifies this
      ensures Valid()
      ensures match Ledger.SaveFailedCancelTransaction(old(State()), accountNumber, amount, now, newId)
              case Ok(step) => r == Pass && State() == step.after
              case Err(e) => r == Fail(e) && State() == old(State())
    {
      if accountNumber !in accounts {
        return Fail(AccountNotFound);
      }
      var account := accounts[accountNumber];
      var t := Transaction(newId, account.id, Cancel, S, amount, account.balance, now);
      transactions := transactions + [t];
      Ledger.SaveFailedCancelKeepsInvariant(old(State()), accountNumber, amount, now, newId);
      return Pass;
    }

    /** `queryTransaction`: a read-only look-up. */
    method QueryTransaction(transactionId: TransactionId) returns (r: Result<Transaction>)
      ensures r == Ledger.QueryTransaction(State(), transactionId)
      ensures r.Ok? ==> r.value in transactions && r.value.transactionId == transactionId
      ensures r.Err? <==> IsFresh(transactions, transactionId)
      ensures r.Err? ==> r.error == TransactionNotFound
    {
      var found := FindByTransactionId(transactions, transactionId);
      if found.None? {
        return Err(TransactionNotFound);
      }
      return Ok(found.value);
    }
  }
}
