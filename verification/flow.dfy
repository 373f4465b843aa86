/** FlowChecker: flags every account whose net balance (received minus
    sent) is a net outflow beyond a fixed limit. */
module FlowChecker {
  import opened Seqs
  import opened Transactions

  /** The Java engine's fixed limit of 100000.0 currency units, in cents. */
  const SuspectLimit: int := 10_000_000

  const FlowReason: string := "Desequilíbrio de fluxo"

  /** Total received by `a` over the batch. */
  function Received(txs: seq<Transaction>, a: Account): int {
    if |txs| == 0 then 0
    else
      var t := txs[|txs| - 1];
      Received(txs[..|txs| - 1], a) + (if t.destination == a then t.amount else 0)
  }

  /** Total sent by `a` over the batch. */
  function Sent(txs: seq<Transaction>, a: Account): int {
    if |txs| == 0 then 0
    else
      var t := txs[|txs| - 1];
      Sent(txs[..|txs| - 1], a) + (if t.origin == a then t.amount else 0)
  }

  /** The net balance of `a`: what it received minus what it sent. */
  function Balance(txs: seq<Transaction>, a: Account): int {
    Received(txs, a) - Sent(txs, a)
  }

  /** The entry of `a`, or 0 when there is none. */
  function Lookup(m: map<Account, int>, a: Account): int {
    if a in m then m[a] else 0
  }

  /** Adds `delta` to the entry of `a`, creating it when absent (the Java
      engine's `Map.merge` with `Double::sum`). */
  function MergeAdd(m: map<Account, int>, a: Account, delta: int): (r: map<Account, int>)
    ensures r.Keys == m.Keys + {a}
    ensures forall b :: Lookup(r, b) == Lookup(m, b) + (if b == a then delta else 0)
  {
    m[a := if a in m then m[a] + delta else delta]
  }

  /** The balance table the Java engine builds: one pass over the batch, crediting
      the destination and then debiting the origin of each transaction. */
  function BalanceMap(txs: seq<Transaction>): map<Account, int> {
    if |txs| == 0 then map[]
    else
      var t := txs[|txs| - 1];
      MergeAdd(MergeAdd(BalanceMap(txs[..|txs| - 1]), t.destination, t.amount), t.origin, -t.amount)
  }

  /** The balance table holds exactly the accounts of the batch, each with
      its received-minus-sent balance. */
  lemma {:induction false} BalanceMapIsBalance(txs: seq<Transaction>)
    ensures BalanceMap(txs).Keys == AccountSet(txs)
    ensures forall a :: Lookup(BalanceMap(txs), a) == Balance(txs, a)
  {
    if |txs| > 0 {
      BalanceMapIsBalance(txs[..|txs| - 1]);
      AccountSetSnoc(txs);
      forall a ensures Lookup(BalanceMap(txs), a) == Balance(txs, a) {
        BalanceMapSnoc(txs, a);
        BalanceSnoc(txs, a);
      }
    }
  }

  lemma BalanceMapSnoc(txs: seq<Transaction>, a: Account)
    requires |txs| > 0
    ensures var t := txs[|txs| - 1];
            Lookup(BalanceMap(txs), a) == Lookup(BalanceMap(txs[..|txs| - 1]), a)
              + (if t.destination == a then t.amount else 0) - (if t.origin == a then t.amount else 0)
  {
  }

  lemma BalanceSnoc(txs: seq<Transaction>, a: Account)
    requires |txs| > 0
    ensures var t := txs[|txs| - 1];
            Balance(txs, a) == Balance(txs[..|txs| - 1], a)
              + (if t.destination == a then t.amount else 0) - (if t.origin == a then t.amount else 0)
  {
  }

  /** The transactions `a` sends or receives, in input order. */
  function FilterByAccount(txs: seq<Transaction>, a: Account): (r: seq<Transaction>)
    ensures forall t :: t in r ==> Involves(t, a)
    ensures forall t :: multiset(r)[t] == if Involves(t, a) then multiset(txs)[t] else 0
  {
    Filter(txs, t => Involves(t, a))
  }

  /** One finding per account of `accts` whose balance in `m` is below
      `-limit`, in the order of `accts`. */
  function Flag(txs: seq<Transaction>, m: map<Account, int>, limit: int, accts: seq<Account>): (r: seq<Suspicion>)
    ensures forall s :: s in r ==> s.account in accts && s.account in m && m[s.account] < -limit
    ensures forall s :: s in r ==> s == Suspicion(s.account, FlowReason, 1, FilterByAccount(txs, s.account))
    ensures forall a :: a in accts && a in m && m[a] < -limit ==> exists s :: s in r && s.account == a
    ensures NoDuplicates(accts) ==> DistinctAccounts(r)
  {
    if |accts| == 0 then []
    else
      var a := accts[|accts| - 1];
      var init := Flag(txs, m, limit, accts[..|accts| - 1]);
      assert accts == accts[..|accts| - 1] + [a];
      if a in m && m[a] < -limit then
        init + [Suspicion(a, FlowReason, 1, FilterByAccount(txs, a))]
      else init
  }

  /** The detector: an account is flagged iff it occurs in the batch and its
      balance is strictly below `-limit` (a balance of exactly `-limit` is
      not flagged); it is flagged once, with score 1 and every transaction it
      takes part in as evidence. */
  function Check(txs: seq<Transaction>, limit: int): (r: seq<Suspicion>)
    ensures forall a :: (exists s :: s in r && s.account == a)
                        <==> a in AccountSet(txs) && Balance(txs, a) < -limit
    ensures forall s :: s in r ==>
              s.score == 1 && s.reason == FlowReason && s.evidence == FilterByAccount(txs, s.account)
    ensures DistinctAccounts(r)
  {
    BalanceMapIsBalance(txs);
    Flag(txs, BalanceMap(txs), limit, Accounts(txs))
  }

  /** The evidence keeps input order: the transactions of a prefix come
      before those of the rest. */
  lemma FilterByAccountConcat(a: seq<Transaction>, b: seq<Transaction>, acc: Account)
    ensures FilterByAccount(a + b, acc) == FilterByAccount(a, acc) + FilterByAccount(b, acc)
  {
    FilterConcat(a, b, (t: Transaction) => Involves(t, acc));
  }
}
