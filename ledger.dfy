/** What each operation of the transaction service does to the stores it
    works on, as functions from the stores before the call to the result and
    the stores after it, with the invariant they keep and the properties that
    relate several calls. */
module Ledger {
  import opened Domain
  import opened Journal
  import opened Validation

  /** The three repositories: users by id, accounts by account number, and
      the transaction table in the order rows were saved. */
  datatype Store = Store(
    users: map<UserId, AccountUser>,
    accounts: map<AccountNumber, Account>,
    transactions: seq<Transaction>)

  /** A call that saved a row: the row and the stores afterwards. */
  datatype Step = Step(record: Transaction, after: Store)

  ghost predicate UsersWellFormed(users: map<UserId, AccountUser>) {
    forall u :: u in users ==> users[u].id == u
  }

  /** Each account is filed under its own number, and no two accounts share
      an id. */
  ghost predicate AccountsWellFormed(accounts: map<AccountNumber, Account>) {
    && (forall n :: n in accounts ==> accounts[n].accountNumber == n)
    && (forall n, m :: n in accounts && m in accounts && accounts[n].id == accounts[m].id ==> n == m)
  }

  /** The newest row about `account`, if there is one, records its current
      balance. */
  ghost predicate SnapshotCurrent(log: seq<Transaction>, account: Account) {
    match LatestFor(log, account.id)
    case None => true
    case Some(t) => t.balanceSnapshot == account.balance
  }

  ghost predicate Invariant(s: Store) {
    && UsersWellFormed(s.users)
    && AccountsWellFormed(s.accounts)
    && UniqueIds(s.transactions)
    && forall n :: n in s.accounts ==> SnapshotCurrent(s.transactions, s.accounts[n])
  }

  /** `step` saved exactly one row about account `n`, whose snapshot is
      `balance`, set that account's balance to `balance`, and changed nothing
      else: no user, no other account, no earlier row. */
  ghost predicate Saved(s: Store, n: AccountNumber, balance: int, step: Step) {
    && n in s.accounts
    && step.after.users == s.users
    && step.after.accounts.Keys == s.accounts.Keys
    && step.after.accounts[n] == s.accounts[n].(balance := balance)
    && (forall m :: m in s.accounts && m != n ==> step.after.accounts[m] == s.accounts[m])
    && step.after.transactions == s.transactions + [step.record]
    && step.record.accountId == s.accounts[n].id
    && step.record.balanceSnapshot == balance
  }

  /** The service's `useBalance` (TransactionService.java:34-55). */
  function UseBalance(
    s: Store, userId: UserId, accountNumber: AccountNumber, amount: int,
    now: Time, newId: TransactionId): (r: Result<Step>)
    ensures userId !in s.users ==> r == Err(UserNotFound)
    ensures userId in s.users && accountNumber !in s.accounts ==> r == Err(AccountNotFound)
    ensures userId in s.users && accountNumber in s.accounts ==>
      var v := ValidateUseBalance(s.users[userId], s.accounts[accountNumber], amount);
      (r.Ok? <==> v == Pass) && (v.Fail? ==> r == Err(v.error))
    ensures r.Ok? ==>
      && accountNumber in s.accounts
      && Saved(s, accountNumber, s.accounts[accountNumber].balance - amount, r.value)
      && r.value.after.accounts[accountNumber].balance >= 0
    ensures r.Ok? ==>
      var t := r.value.record;
      t.transactionId == newId && t.transactionType == Use && t.resultType == S
      && t.amount == amount && t.transactedAt == now
  {
    if userId !in s.users then Err(UserNotFound)
    else if accountNumber !in s.accounts then Err(AccountNotFound)
    else
      var account := s.accounts[accountNumber];
      var v := ValidateUseBalance(s.users[userId], account, amount);
      if v.Fail? then Err(v.error)
      else
        var debited := account.UseBalance(amount);
        var t := Transaction(newId, debited.id, Use, S, amount, debited.balance, now);
        Ok(Step(t, Store(s.users, s.accounts[accountNumber := debited], s.transactions + [t])))
  }

  /** The service's `saveFailedUseTransaction` (TransactionService.java:70-85):
      an audit row USE/F that changes no balance. */
  function SaveFailedUseTransaction(
    s: Store, accountNumber: AccountNumber, amount: int,
    now: Time, newId: TransactionId): (r: Result<Step>)
    ensures r.Err? <==> accountNumber !in s.accounts
    ensures r.Err? ==> r.error == AccountNotFound
    ensures r.Ok? ==>
      && accountNumber in s.accounts
      && Saved(s, accountNumber, s.accounts[accountNumber].balance, r.value)
      && r.value.after.accounts == s.accounts
    ensures r.Ok? ==>
      var t := r.value.record;
      t.transactionId == newId && t.transactionType == Use && t.resultType == F
      && t.amount == amount && t.transactedAt == now
  {
    if accountNumber !in s.accounts then Err(AccountNotFound)
    else
      var account := s.accounts[accountNumber];
      var t := Transaction(newId, account.id, Use, F, amount, account.balance, now);
      Ok(Step(t, Store(s.users, s.accounts, s.transactions + [t])))
  }

  /** The service's `cancelBalance` (TransactionService.java:87-108). As
      written it applies the same debit as `useBalance`. */
  function CancelBalance(
    s: Store, transactionId: TransactionId, accountNumber: AccountNumber, amount: int,
    now: Time, oneYearBefore: Time -> Time, newId: TransactionId): (r: Result<Step>)
    ensures IsFresh(s.transactions, transactionId) ==> r == Err(TransactionNotFound)
    ensures !IsFresh(s.transactions, transactionId) && accountNumber !in s.accounts
        ==> r == Err(AccountNotFound)
    ensures !IsFresh(s.transactions, transactionId) && accountNumber in s.accounts ==>
      var original := FindByTransactionId(s.transactions, transactionId).value;
      var v := ValidateCancelBalance(original, s.accounts[accountNumber], amount, now, oneYearBefore);
      (r.Ok? <==> v == Pass) && (v.Fail? ==> r == Err(v.error))
    ensures r.Ok? ==>
      && accountNumber in s.accounts
      && Saved(s, accountNumber, s.accounts[accountNumber].balance - amount, r.value)
    ensures r.Ok? ==>
      var t := r.value.record;
      t.transactionId == newId && t.transactionType == Cancel && t.resultType == S
      && t.amount == amount && t.transactedAt == now
  {
    match FindByTransactionId(s.transactions, transactionId)
    case None => Err(TransactionNotFound)
    case Some(original) =>
      if accountNumber !in s.accounts then Err(AccountNotFound)
      else
        var account := s.accounts[accountNumber];
        var v := ValidateCancelBalance(original, account, amount, now, oneYearBefore);
        if v.Fail? then Err(v.error)
        else
          var debited := account.UseBalance(amount);
          var t := Transaction(newId, debited.id, Cancel, S, amount, debited.balance, now);
          Ok(Step(t, Store(s.users, s.accounts[accountNumber := debited], s.transactions + [t])))
  }

  /** The service's `saveFailedCancelTransaction`
      (TransactionService.java:123-138): an audit row that changes no
      balance, saved as written with result `S`. */
  function SaveFailedCancelTransaction(
    s: Store, accountNumber: AccountNumber, amount: int,
    now: Time, newId: TransactionId): (r: Result<Step>)
    ensures r.Err? <==> accountNumber !in s.accounts
    ensures r.Err? ==> r.error == AccountNotFound
    ensures r.Ok? ==>
      && accountNumber in s.accounts
      && Saved(s, accountNumber, s.accounts[accountNumber].balance, r.value)
      && r.value.after.accounts == s.accounts
    ensures r.Ok? ==>
      var t := r.value.record;
      t.transactionId == newId && t.transactionType == Cancel && t.resultType == S
      && t.amount == amount && t.transactedAt == now
  {
    if accountNumber !in s.accounts then Err(AccountNotFound)
    else
      var account := s.accounts[accountNumber];
      var t := Transaction(newId, account.id, Cancel, S, amount, account.balance, now);
      Ok(Step(t, Store(s.users, s.accounts, s.transactions + [t])))
  }

  /** The service's `queryTransaction` (TransactionService.java:140-144). */
  function QueryTransaction(s: Store, transactionId: TransactionId): (r: Result<Transaction>)
    ensures r.Ok? ==> r.value in s.transactions && r.value.transactionId == transactionId
    ensures r.Err? <==> IsFresh(s.transactions, transactionId)
    ensures r.Err? ==> r.error == TransactionNotFound
  {
    match FindByTransactionId(s.transactions, transactionId)
    case None => Err(TransactionNotFound)
    case Some(t) => Ok(t)
  }

  // ---------------------------------------------------------------------
  // The invariant

  /** Every way a row is saved keeps the invariant, given a fresh id. */
  lemma SavedKeepsInvariant(s: Store, n: AccountNumber, balance: int, step: Step)
    requires Invariant(s) && Saved(s, n, balance, step)
    requires IsFresh(s.transactions, step.record.transactionId)
    ensures Invariant(step.after)
  {
    var s', t := step.after, step.record;
    UniqueAfterAppend(s.transactions, t);
    forall m | m in s'.accounts ensures SnapshotCurrent(s'.transactions, s'.accounts[m]) {
      LatestAfterAppend(s.transactions, t, s'.accounts[m].id);
      if m != n {
        assert s.accounts[m].id != s.accounts[n].id;
        assert SnapshotCurrent(s.transactions, s.accounts[m]);
      }
    }
    forall m | m in s'.accounts ensures s'.accounts[m].accountNumber == m {
      assert m in s.accounts;
    }
  }

  lemma UseBalanceKeepsInvariant(
    s: Store, userId: UserId, accountNumber: AccountNumber, amount: int,
    now: Time, newId: TransactionId)
    requires Invariant(s) && IsFresh(s.transactions, newId)
    ensures var r := UseBalance(s, userId, accountNumber, amount, now, newId);
            r.Ok? ==> Invariant(r.value.after)
  {
    var r := UseBalance(s, userId, accountNumber, amount, now, newId);
    if r.Ok? {
      SavedKeepsInvariant(s, accountNumber, s.accounts[accountNumber].balance - amount, r.value);
    }
  }

  lemma SaveFailedUseKeepsInvariant(
    s: Store, accountNumber: AccountNumber, amount: int, now: Time, newId: TransactionId)
    requires Invariant(s) && IsFresh(s.transactions, newId)
    ensures var r := SaveFailedUseTransaction(s, accountNumber, amount, now, newId);
            r.Ok? ==> Invariant(r.value.after)
  {
    var r := SaveFailedUseTransaction(s, accountNumber, amount, now, newId);
    if r.Ok? {
      SavedKeepsInvariant(s, accountNumber, s.accounts[accountNumber].balance, r.value);
    }
  }

  lemma CancelBalanceKeepsInvariant(
    s: Store, transactionId: TransactionId, accountNumber: AccountNumber, amount: int,
    now: Time, oneYearBefore: Time -> Time, newId: TransactionId)
    requires Invariant(s) && IsFresh(s.transactions, newId)
    ensures var r := CancelBalance(s, transactionId, accountNumber, amount, now, oneYearBefore, newId);
            r.Ok? ==> Invariant(r.value.after)
  {
    var r := CancelBalance(s, transactionId, accountNumber, amount, now, oneYearBefore, newId);
    if r.Ok? {
      SavedKeepsInvariant(s, accountNumber, s.accounts[accountNumber].balance - amount, r.value);
    }
  }

  lemma SaveFailedCancelKeepsInvariant(
    s: Store, accountNumber: AccountNumber, amount: int, now: Time, newId: TransactionId)
    requires Invariant(s) && IsFresh(s.transactions, newId)
    ensures var r := SaveFailedCancelTransaction(s, accountNumber, amount, now, newId);
            r.Ok? ==> Invariant(r.value.after)
  {
    var r := SaveFailedCancelTransaction(s, accountNumber, amount, now, newId);
    if r.Ok? {
      SavedKeepsInvariant(s, accountNumber, s.accounts[accountNumber].balance, r.value);
    }
  }

  // ---------------------------------------------------------------------
  // Looking rows up

  /** A stored row is exactly what a query for its id returns. */
  lemma QueryReturnsStored(s: Store, t: Transaction)
    requires Invariant(s) && t in s.transactions
    ensures QueryTransaction(s, t.transactionId) == Ok(t)
  {
    FindStored(s.transactions, t);
  }

  /** After a row with a fresh id is saved, a query for that id returns it,
      and a query for any other id returns what it returned before: earlier
      rows are never changed. */
  lemma QueryAfterSave(s: Store, s': Store, t: Transaction, id: TransactionId)
    requires IsFresh(s.transactions, t.transactionId)
    requires s'.transactions == s.transactions + [t]
    ensures QueryTransaction(s', id)
         == if id == t.transactionId then Ok(t) else QueryTransaction(s, id)
  {
    FindAfterAppend(s.transactions, t, id);
  }

  // ---------------------------------------------------------------------
  // Cancellation as written

  /** Started from the same stores, a successful cancel leaves the accounts
      exactly as a successful use of the same amount on the same account
      does: the cancel debits rather than credits. */
  lemma CancelDebitsLikeUse(
    s: Store, userId: UserId, transactionId: TransactionId, accountNumber: AccountNumber,
    amount: int, now: Time, oneYearBefore: Time -> Time, newId: TransactionId)
    requires UseBalance(s, userId, accountNumber, amount, now, newId).Ok?
    requires CancelBalance(s, transactionId, accountNumber, amount, now, oneYearBefore, newId).Ok?
    ensures UseBalance(s, userId, accountNumber, amount, now, newId).value.after.accounts
         == CancelBalance(s, transactionId, accountNumber, amount, now, oneYearBefore, newId).value.after.accounts
  {
    var u := UseBalance(s, userId, accountNumber, amount, now, newId).value.after.accounts;
    var c := CancelBalance(s, transactionId, accountNumber, amount, now, oneYearBefore, newId).value.after.accounts;
    assert u.Keys == c.Keys;
    forall m | m in u ensures u[m] == c[m] {
      if m != accountNumber {
        assert u[m] == s.accounts[m];
      }
    }
  }

  /** Cancelling a use just made on the same account succeeds as long as the
      clock is still within a year, and takes the amount off a second time:
      when the use spent the whole balance, the cancel leaves it negative. */
  lemma UseThenCancelDebitsTwice(
    s: Store, userId: UserId, accountNumber: AccountNumber, amount: int, useTime: Time,
    useId: TransactionId, now: Time, oneYearBefore: Time -> Time, cancelId: TransactionId)
    requires IsFresh(s.transactions, useId)
    requires UseBalance(s, userId, accountNumber, amount, useTime, useId).Ok?
    requires oneYearBefore(now) <= useTime
    ensures
      var used := UseBalance(s, userId, accountNumber, amount, useTime, useId).value;
      var r := CancelBalance(used.after, useId, accountNumber, amount, now, oneYearBefore, cancelId);
      && r.Ok?
      && r.value.after.accounts[accountNumber].balance == s.accounts[accountNumber].balance - 2 * amount
      && (0 < amount == s.accounts[accountNumber].balance ==> r.value.after.accounts[accountNumber].balance < 0)
  {
    var used := UseBalance(s, userId, accountNumber, amount, useTime, useId).value;
    FindAfterAppend(s.transactions, used.record, useId);
    assert FindByTransactionId(used.after.transactions, useId) == Some(used.record);
  }

  /** Cancelling leaves the original row in place and marks nothing, so the
      same cancel, repeated with a fresh id, succeeds again and debits again. */
  lemma CancelRepeats(
    s: Store, transactionId: TransactionId, accountNumber: AccountNumber, amount: int,
    now: Time, oneYearBefore: Time -> Time, newId: TransactionId, againId: TransactionId)
    requires IsFresh(s.transactions, newId)
    requires CancelBalance(s, transactionId, accountNumber, amount, now, oneYearBefore, newId).Ok?
    ensures
      var first := CancelBalance(s, transactionId, accountNumber, amount, now, oneYearBefore, newId).value;
      var again := CancelBalance(first.after, transactionId, accountNumber, amount, now, oneYearBefore, againId);
      && FindByTransactionId(first.after.transactions, transactionId)
         == FindByTransactionId(s.transactions, transactionId)
      && again.Ok?
      && again.value.after.accounts[accountNumber].balance
         == s.accounts[accountNumber].balance - 2 * amount
  {
    var first := CancelBalance(s, transactionId, accountNumber, amount, now, oneYearBefore, newId).value;
    FindAfterAppend(s.transactions, first.record, transactionId);
  }

  // ---------------------------------------------------------------------
  // Concrete scenarios

  /** The service test's scenario: user 12 owns account "1000000012" holding
      10000, and using 1000 saves a USE/S row of 1000 with snapshot 9000. */
  lemma UseScenario(now: Time, newId: TransactionId)
    ensures
      var s := Store(map[12 := AccountUser(12, "Pobi")],
                     map["1000000012" := Account(1, "1000000012", 12, 10000, InUse)], []);
      var r := UseBalance(s, 12, "1000000012", 1000, now, newId);
      && r.Ok?
      && r.value.record.transactionType == Use && r.value.record.resultType == S
      && r.value.record.amount == 1000 && r.value.record.balanceSnapshot == 9000
  {
  }

  /** On the same account, using 20000 is refused by the balance rule of the
      validation with `AmountExceedBalance`, and nothing is saved. */
  lemma UseExceedingBalanceScenario(now: Time, newId: TransactionId)
    ensures
      var s := Store(map[12 := AccountUser(12, "Pobi")],
                     map["1000000012" := Account(1, "1000000012", 12, 10000, InUse)], []);
      UseBalance(s, 12, "1000000012", 20000, now, newId) == Err(AmountExceedBalance)
  {
  }
}
