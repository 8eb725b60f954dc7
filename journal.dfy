/** The transaction table, kept as an append-only sequence of rows in the
    order they were saved, and the two look-ups the ledger needs on it. */
module Journal {
  import opened Domain

  /** No row of `log` carries the id `id` (what a fresh UUID guarantees). */
  predicate IsFresh(log: seq<Transaction>, id: TransactionId) {
    forall t :: t in log ==> t.transactionId != id
  }

  /** No two rows share a transaction id. */
  ghost predicate UniqueIds(log: seq<Transaction>) {
    forall i, j :: 0 <= i < j < |log| ==> log[i].transactionId != log[j].transactionId
  }

  /** `findByTransactionId`: the first row with this id, if any. */
  function FindByTransactionId(log: seq<Transaction>, id: TransactionId): (r: Option<Transaction>)
    ensures r.Some? ==> r.value in log && r.value.transactionId == id
    ensures r.None? <==> IsFresh(log, id)
  {
    if log == [] then None
    else if log[0].transactionId == id then Some(log[0])
    else FindByTransactionId(log[1..], id)
  }

  /** The most recently saved row that refers to account `a`, if any: it
      stands at some position of `log` after which no row refers to `a`. */
  function LatestFor(log: seq<Transaction>, a: AccountId): (r: Option<Transaction>)
    ensures r.Some? ==> r.value in log && r.value.accountId == a
    ensures r.Some? ==>
      exists i :: 0 <= i < |log| && log[i] == r.value
        && forall j :: i < j < |log| ==> log[j].accountId != a
    ensures r.None? <==> forall t :: t in log ==> t.accountId != a
  {
    if log == [] then None
    else if log[|log| - 1].accountId == a then Some(log[|log| - 1])
    else
      LatestFor(log[..|log| - 1], a)
  }

  /** Saving a row with a fresh id makes that row findable under its id and
      leaves what every other id finds unchanged. */
  lemma {:induction false} FindAfterAppend(log: seq<Transaction>, t: Transaction, id: TransactionId)
    requires IsFresh(log, t.transactionId)
    ensures FindByTransactionId(log + [t], id)
         == if id == t.transactionId then Some(t) else FindByTransactionId(log, id)
  {
    if log == [] {
      assert [] + [t] == [t];
    } else {
      assert (log + [t])[0] == log[0];
      assert (log + [t])[1..] == log[1..] + [t];
      if log[0].transactionId != id {
        FindAfterAppend(log[1..], t, id);
      }
    }
  }

  /** With unique ids, every stored row is what its id finds. */
  lemma {:induction false} FindStored(log: seq<Transaction>, t: Transaction)
    requires UniqueIds(log) && t in log
    ensures FindByTransactionId(log, t.transactionId) == Some(t)
  {
    if log[0] != t {
      var k :| 0 <= k < |log| && log[k] == t;
      assert k > 0;
      assert log[1..][k - 1] == t;
      FindStored(log[1..], t);
    }
  }

  /** Saving a row with a fresh id keeps the ids unique. */
  lemma UniqueAfterAppend(log: seq<Transaction>, t: Transaction)
    requires UniqueIds(log) && IsFresh(log, t.transactionId)
    ensures UniqueIds(log + [t])
  {
    forall i, j | 0 <= i < j < |log + [t]|
      ensures (log + [t])[i].transactionId != (log + [t])[j].transactionId
    {
      if j == |log| {
        assert log[i] in log;
      }
    }
  }

  /** The newest row of an account after a save is the saved row if it refers
      to that account, and the previous newest row otherwise. */
  lemma LatestAfterAppend(log: seq<Transaction>, t: Transaction, a: AccountId)
    ensures LatestFor(log + [t], a) == if t.accountId == a then Some(t) else LatestFor(log, a)
  {
    assert (log + [t])[..|log|] == log;
  }
}
