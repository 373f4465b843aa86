/** The shared data model of the detection engine: transactions, the
    findings ("suspicions") the detectors emit, and the accounts that take
    part in a batch. Amounts are whole cents and timestamps whole minutes. */
module Transactions {
  import opened Seqs

  /** An opaque account identifier. */
  type Account = string

  /** One transfer of `amount` cents from `origin` to `destination` at
      minute `time`. Nothing forbids a self-transfer or a negative amount. */
  datatype Transaction = Transaction(origin: Account, destination: Account, amount: int, time: int)

  /** One detector's verdict on one account, with the transactions that
      justify it. */
  datatype Suspicion = Suspicion(account: Account, reason: string, score: int, evidence: seq<Transaction>)

  /** The account sends or receives `t`. */
  predicate Involves(t: Transaction, a: Account) {
    t.origin == a || t.destination == a
  }

  /** The transactions `a` sends, in input order, each with its input
      multiplicity: the smurfing detector's group before sorting and the
      layering detector's adjacency list. */
  function SentBy(txs: seq<Transaction>, a: Account): (r: seq<Transaction>)
    ensures forall t :: t in r <==> t in txs && t.origin == a
    ensures forall t :: multiset(r)[t] == if t.origin == a then multiset(txs)[t] else 0
  {
    Filter(txs, (t: Transaction) => t.origin == a)
  }

  /** Every account that occurs in the batch, as origin or destination. */
  function AccountSet(txs: seq<Transaction>): set<Account> {
    (set t | t in txs :: t.origin) + (set t | t in txs :: t.destination)
  }

  lemma AccountSetSnoc(txs: seq<Transaction>)
    requires |txs| > 0
    ensures AccountSet(txs)
         == AccountSet(txs[..|txs| - 1]) + {txs[|txs| - 1].origin, txs[|txs| - 1].destination}
  {
    assert txs == txs[..|txs| - 1] + [txs[|txs| - 1]];
  }

  /** Origin and destination of every transaction, in input order. */
  function Endpoints(txs: seq<Transaction>): (r: seq<Account>)
    ensures forall a :: a in r <==> a in AccountSet(txs)
  {
    if |txs| == 0 then []
    else
      var init := Endpoints(txs[..|txs| - 1]);
      var t := txs[|txs| - 1];
      assert txs == txs[..|txs| - 1] + [t];
      init + [t.origin, t.destination]
  }

  /** The accounts of the batch, once each, in order of first appearance.
      This fixes the order in which the detectors report accounts. */
  function Accounts(txs: seq<Transaction>): (r: seq<Account>)
    ensures NoDuplicates(r)
    ensures forall a :: a in r <==> a in AccountSet(txs)
  {
    Dedup(Endpoints(txs))
  }

  /** The accounts a list of findings is about. */
  function SuspectAccounts(alerts: seq<Suspicion>): (r: set<Account>)
    ensures forall s :: s in alerts ==> s.account in r
    ensures forall a :: a in r ==> exists s :: s in alerts && s.account == a
  {
    set s | s in alerts :: s.account
  }

  /** No two findings name the same account. */
  predicate DistinctAccounts(alerts: seq<Suspicion>) {
    forall i, j :: 0 <= i < j < |alerts| ==> alerts[i].account != alerts[j].account
  }

  /** The sent transactions keep input order: those of a prefix come before
      those of the rest. */
  lemma SentByConcat(a: seq<Transaction>, b: seq<Transaction>, o: Account)
    ensures SentBy(a + b, o) == SentBy(a, o) + SentBy(b, o)
  {
    FilterConcat(a, b, (t: Transaction) => t.origin == o);
  }
}
