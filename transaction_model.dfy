/** The transaction schema of src/models/transaction.model.ts: required ids, a date
    defaulting to the current time, Stripe as the only payment provider, a non-negative
    optional amount, and a unique transactionId. */
module TransactionModel {
  import opened Wrappers
  import opened Tables

  const PaymentProviders: set<string> := {"stripe"}

  /** A transaction as a caller submits it; a path it leaves out is None. */
  datatype TransactionInput = TransactionInput(
    userId: Option<string>,
    transactionId: Option<string>,
    dateTime: Option<int>,
    courseId: Option<string>,
    paymentProvider: Option<string>,
    amount: Option<int>)

  datatype Transaction = Transaction(
    userId: string,
    transactionId: string,
    dateTime: int,
    courseId: string,
    paymentProvider: string,
    amount: Option<int>)

  /** Casting with the default: Date.now for dateTime. No path is trimmed. */
  function NewTransaction(t: TransactionInput, now: int): (r: Transaction)
    ensures r.dateTime == (if t.dateTime.Some? then t.dateTime.value else now)
    ensures r.userId == t.userId.GetOr("") && r.transactionId == t.transactionId.GetOr("")
    ensures r.courseId == t.courseId.GetOr("") && r.paymentProvider == t.paymentProvider.GetOr("")
    ensures r.amount == t.amount
  {
    Transaction(
      t.userId.GetOr(""),
      t.transactionId.GetOr(""),
      t.dateTime.GetOr(now),
      t.courseId.GetOr(""),
      t.paymentProvider.GetOr(""),
      t.amount)
  }

  /** The validators: ids required, provider 'stripe', amount non-negative when present. */
  predicate TransactionValid(t: Transaction) {
    && t.userId != ""
    && t.transactionId != ""
    && t.courseId != ""
    && t.paymentProvider in PaymentProviders
    && (t.amount.None? || t.amount.value >= 0)
  }

  function TransactionKey(t: Transaction): string {
    t.transactionId
  }

  /** The transaction collection: every document valid, transactionId unique. */
  ghost predicate TransactionTableValid(rows: seq<Transaction>) {
    && (forall k :: 0 <= k < |rows| ==> TransactionValid(rows[k]))
    && UniqueBy(rows, TransactionKey)
  }

  const TransactionValidationFailed: string := "Transaction validation failed"

  /** Transaction.create: cast, validate, insert under the unique transactionId index. */
  function CreateTransaction(rows: seq<Transaction>, t: TransactionInput, now: int): (r: Result<seq<Transaction>, string>)
    ensures var d := NewTransaction(t, now);
      r.Ok? <==> TransactionValid(d) && !KeyTaken(rows, TransactionKey, d.transactionId)
    ensures r.Ok? ==> r.value == rows + [NewTransaction(t, now)]
  {
    var d := NewTransaction(t, now);
    if !TransactionValid(d) then Err(TransactionValidationFailed) else Insert(rows, TransactionKey, d)
  }

  /** A stored transaction is a Stripe payment of a non-negative amount, the collection
      stays valid after an accepted insert, and replaying the same transactionId is
      refused even for another user, course or amount. */
  lemma {:induction false} TransactionReplayRefused(rows: seq<Transaction>, t: TransactionInput, now: int, replay: TransactionInput, later: int)
    requires TransactionTableValid(rows) && CreateTransaction(rows, t, now).Ok?
    requires replay.transactionId == t.transactionId
    ensures var d := NewTransaction(t, now);
      d.paymentProvider == "stripe" && (d.amount.None? || d.amount.value >= 0) && d.dateTime == t.dateTime.GetOr(now)
    ensures TransactionTableValid(CreateTransaction(rows, t, now).value)
    ensures CreateTransaction(CreateTransaction(rows, t, now).value, replay, later).Err?
  {
    var d := NewTransaction(t, now);
    InsertKeepsUnique(rows, TransactionKey, d);
    var r := rows + [d];
    assert r[|rows|] == d;
    assert KeyTaken(r, TransactionKey, NewTransaction(replay, later).transactionId);
  }
}
