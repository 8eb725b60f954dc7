/** `TransactionController`: each balance request calls the service, and when
    the service rejects it with an `AccountException`, records the failed
    attempt through the service and then rethrows the same exception. */
module Controller {
  import opened Domain
  import opened Journal
  import Ledger
  import Service

  /** The bodies of `POST /transaction/use` and `POST /transaction/cancel`. */
  datatype UseRequest = UseRequest(userId: UserId, accountNumber: AccountNumber, amount: int)
  datatype CancelRequest = CancelRequest(
    transactionId: TransactionId, accountNumber: AccountNumber, amount: int)

  /** What a handler answers (the saved row, or the error it throws) and the
      stores after it. The response objects are the row itself. */
  datatype Reply = Reply(response: Result<Transaction>, after: Ledger.Store)

  /** `after` is `s` with exactly one more row, about account `n`, holding the
      given type, result, amount and clock reading, the id `newId` and the
      account's current balance; no user and no account changed. */
  ghost predicate Audited(
    s: Ledger.Store, after: Ledger.Store, n: AccountNumber,
    kind: TransactionType, result: TransactionResultType, amount: int,
    now: Time, newId: TransactionId)
  {
    && n in s.accounts
    && after.users == s.users
    && after.accounts == s.accounts
    && after.transactions
       == s.transactions
          + [Transaction(newId, s.accounts[n].id, kind, result, amount, s.accounts[n].balance, now)]
  }

  /** The try/catch of `useBalance` (TransactionController.java:29-41). */
  function HandleUse(s: Ledger.Store, request: UseRequest, now: Time, newId: TransactionId): (reply: Reply)
    ensures Ledger.UseBalance(s, request.userId, request.accountNumber, request.amount, now, newId).Ok? ==>
      var step := Ledger.UseBalance(s, request.userId, request.accountNumber, request.amount, now, newId).value;
      reply == Reply(Ok(step.record), step.after)
    ensures Ledger.UseBalance(s, request.userId, request.accountNumber, request.amount, now, newId).Err?
            && request.accountNumber in s.accounts ==>
      && reply.response
         == Err(Ledger.UseBalance(s, request.userId, request.accountNumber, request.amount, now, newId).error)
      && Audited(s, reply.after, request.accountNumber, Use, F, request.amount, now, newId)
    ensures request.accountNumber !in s.accounts ==> reply == Reply(Err(AccountNotFound), s)
    ensures |reply.after.transactions|
         == |s.transactions| + (if request.accountNumber in s.accounts then 1 else 0)
  {
    match Ledger.UseBalance(s, request.userId, request.accountNumber, request.amount, now, newId)
    case Ok(step) => Reply(Ok(step.record), step.after)
    case Err(e) =>
      match Ledger.SaveFailedUseTransaction(s, request.accountNumber, request.amount, now, newId)
      case Err(recording) => Reply(Err(recording), s)
      case Ok(audit) => Reply(Err(e), audit.after)
  }

  /** The try/catch of `cancelBalance` (TransactionController.java:51-63). */
  function HandleCancel(
    s: Ledger.Store, request: CancelRequest, now: Time, oneYearBefore: Time -> Time,
    newId: TransactionId): (reply: Reply)
    ensures Ledger.CancelBalance(s, request.transactionId, request.accountNumber, request.amount,
                                 now, oneYearBefore, newId).Ok? ==>
      var step := Ledger.CancelBalance(s, request.transactionId, request.accountNumber,
                                       request.amount, now, oneYearBefore, newId).value;
      reply == Reply(Ok(step.record), step.after)
    ensures Ledger.CancelBalance(s, request.transactionId, request.accountNumber, request.amount,
                                 now, oneYearBefore, newId).Err?
            && request.accountNumber in s.accounts ==>
      && reply.response
         == Err(Ledger.CancelBalance(s, request.transactionId, request.accountNumber, request.amount,
                                     now, oneYearBefore, newId).error)
      && Audited(s, reply.after, request.accountNumber, Cancel, S, request.amount, now, newId)
    ensures request.accountNumber !in s.accounts ==> reply == Reply(Err(AccountNotFound), s)
    ensures |reply.after.transactions|
         == |s.transactions| + (if request.accountNumber in s.accounts then 1 else 0)
  {
    match Ledger.CancelBalance(s, request.transactionId, request.accountNumber, request.amount,
                               now, oneYearBefore, newId)
    case Ok(step) => Reply(Ok(step.record), step.after)
    case Err(e) =>
      match Ledger.SaveFailedCancelTransaction(s, request.accountNumber, request.amount, now, newId)
      case Err(recording) => Reply(Err(recording), s)
      case Ok(audit) => Reply(Err(e), audit.after)
  }

  lemma HandleUseKeepsInvariant(s: Ledger.Store, request: UseRequest, now: Time, newId: TransactionId)
    requires Ledger.Invariant(s) && IsFresh(s.transactions, newId)
    ensures Ledger.Invariant(HandleUse(s, request, now, newId).after)
  {
    Ledger.UseBalanceKeepsInvariant(s, request.userId, request.accountNumber, request.amount, now, newId);
    Ledger.SaveFailedUseKeepsInvariant(s, request.accountNumber, request.amount, now, newId);
  }

  lemma HandleCancelKeepsInvariant(
    s: Ledger.Store, request: CancelRequest, now: Time, oneYearBefore: Time -> Time,
    newId: TransactionId)
    requires Ledger.Invariant(s) && IsFresh(s.transactions, newId)
    ensures Ledger.Invariant(HandleCancel(s, request, now, oneYearBefore, newId).after)
  {
    Ledger.CancelBalanceKeepsInvariant(s, request.transactionId, request.accountNumber,
                                       request.amount, now, oneYearBefore, newId);
    Ledger.SaveFailedCancelKeepsInvariant(s, request.accountNumber, request.amount, now, newId);
  }

  /** After a rejected use on an existing account, the audit row is the
      newest row of that account, queryable under the new id, marked USE/F,
      and every earlier row is still returned as before. */
  lemma RejectedUseLeavesAuditRow(
    s: Ledger.Store, request: UseRequest, now: Time, newId: TransactionId, id: TransactionId)
    requires IsFresh(s.transactions, newId)
    requires request.accountNumber in s.accounts
    requires HandleUse(s, request, now, newId).response.Err?
    ensures
      var after := HandleUse(s, request, now, newId).after;
      var account := s.accounts[request.accountNumber];
      var row := Transaction(newId, account.id, Use, F, request.amount, account.balance, now);
      && Ledger.QueryTransaction(after, newId) == Ok(row)
      && LatestFor(after.transactions, account.id) == Some(row)
      && (id != newId ==> Ledger.QueryTransaction(after, id) == Ledger.QueryTransaction(s, id))
  {
    var after := HandleUse(s, request, now, newId).after;
    var account := s.accounts[request.accountNumber];
    var row := Transaction(newId, account.id, Use, F, request.amount, account.balance, now);
    assert after.transactions == s.transactions + [row];
    Ledger.QueryAfterSave(s, after, row, newId);
    Ledger.QueryAfterSave(s, after, row, id);
    LatestAfterAppend(s.transactions, row, account.id);
  }

  /** After a rejected cancel on an existing account, the audit row is the
      newest row of that account and is queryable under the new id; as
      written it reads CANCEL/S, like a successful cancel, although no
      balance moved. */
  lemma RejectedCancelLooksSuccessful(
    s: Ledger.Store, request: CancelRequest, now: Time, oneYearBefore: Time -> Time,
    newId: TransactionId)
    requires IsFresh(s.transactions, newId)
    requires request.accountNumber in s.accounts
    requires HandleCancel(s, request, now, oneYearBefore, newId).response.Err?
    ensures
      var after := HandleCancel(s, request, now, oneYearBefore, newId).after;
      var account := s.accounts[request.accountNumber];
      && after.accounts == s.accounts
      && Ledger.QueryTransaction(after, newId).Ok?
      && var row := Ledger.QueryTransaction(after, newId).value;
      && row.transactionType == Cancel && row.resultType == S
      && row.amount == request.amount && row.balanceSnapshot == account.balance
      && LatestFor(after.transactions, account.id) == Some(row)
  {
    var after := HandleCancel(s, request, now, oneYearBefore, newId).after;
    var account := s.accounts[request.accountNumber];
    var row := Transaction(newId, account.id, Cancel, S, request.amount, account.balance, now);
    assert after.transactions == s.transactions + [row];
    Ledger.QueryAfterSave(s, after, row, newId);
    LatestAfterAppend(s.transactions, row, account.id);
  }

  class TransactionController {
    const service: Service.TransactionService

    constructor (service: Service.TransactionService)
      ensures this.service == service
    {
      this.service := service;
    }

    /** `useBalance`: one fresh id serves whichever row gets saved. */
    method UseBalance(request: UseRequest, now: Time, newId: TransactionId)
      returns (response: Result<Transaction>)
      requires service.Valid() && IsFresh(service.transactions, newId)
      modifies service
      ensures service.Valid()
      ensures HandleUse(old(service.State()), request, now, newId) == Reply(response, service.State())
    {
      response := service.UseBalance(request.userId, request.accountNumber, request.amount, now, newId);
      if response.Err? {
        var recorded := service.SaveFailedUseTransaction(request.accountNumber, request.amount, now, newId);
        if recorded.Fail? {
          return Err(recorded.error);
        }
      }
    }

    /** `cancelBalance`. */
    method CancelBalance(request: CancelRequest, now: Time, oneYearBefore: Time -> Time,
                         newId: TransactionId) returns (response: Result<Transaction>)
      requires service.Valid() && IsFresh(service.transactions, newId)
      modifies service
      ensures service.Valid()
      ensures HandleCancel(old(service.State()), request, now, oneYearBefore, newId)
           == Reply(response, service.State())
    {
      response := service.CancelBalance(request.transactionId, request.accountNumber, request.amount,
                                        now, oneYearBefore, newId);
      if response.Err? {
        var recorded := service.SaveFailedCancelTransaction(request.accountNumber, request.amount,
                                                            now, newId);
        if recorded.Fail? {
          return Err(recorded.error);
        }
      }
    }

    /** `queryTransaction`: passed straight to the service. */
    method QueryTransaction(transactionId: TransactionId) returns (response: Result<Transaction>)
      ensures response == Ledger.QueryTransaction(service.State(), transactionId)
      ensures response.Ok? ==> response.value in service.transactions
    {
      response := service.QueryTransaction(transactionId);
    }
  }
}
