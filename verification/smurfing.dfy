/** SmurfingDetector: per origin, the first greedy burst of at least
    `minTx` small transfers within a time window. */
module SmurfingDetector {
  import opened Seqs
  import opened Transactions
  import opened Wrappers

  /** The Java engine's settings: 6000 minutes, 20000.0 currency units (in
      cents) and 5 transactions. */
  const WindowMinutes: int := 6000
  const UnitLimit: int := 2_000_000
  const MinTx: int := 5

  const SmurfingReason: string := "Smurfing detectado"

  datatype Params = Params(windowMinutes: int, unitLimit: int, minTx: int)

  /** The distinct origins of the batch, in order of first appearance. */
  function Origins(txs: seq<Transaction>): (r: seq<Account>)
    ensures NoDuplicates(r)
    ensures forall o :: o in r <==> exists t :: t in txs && t.origin == o
  {
    var os := seq(|txs|, i requires 0 <= i < |txs| => txs[i].origin);
    assert forall o :: o in os <==> exists t :: t in txs && t.origin == o by {
      forall o | o in os ensures exists t :: t in txs && t.origin == o {
        var i :| 0 <= i < |os| && os[i] == o;
        assert txs[i] in txs;
      }
      forall o | exists t :: t in txs && t.origin == o ensures o in os {
        var t :| t in txs && t.origin == o;
        var i :| 0 <= i < |txs| && txs[i] == t;
        assert os[i] == o;
      }
    }
    Dedup(os)
  }

  function TimeOf(t: Transaction): int { t.time }

  /** The transactions `o` sends, ordered by time; ties keep input order
      (the Java engine sorts with a stable sort). */
  function Group(txs: seq<Transaction>, o: Account): (r: seq<Transaction>)
    ensures SortedBy(r, TimeOf)
    ensures forall t :: multiset(r)[t] == if t.origin == o then multiset(txs)[t] else 0
    ensures forall t :: t in r <==> t in txs && t.origin == o
  {
    var r := SortBy(SentBy(txs, o), TimeOf);
    assert forall t :: t in r <==> t in multiset(r);
    r
  }

  /** `t` may join a window opened by `start`: at most `windowMinutes`
      after it and no larger than `unitLimit`. */
  predicate Fits(p: Params, start: Transaction, t: Transaction) {
    t.time - start.time <= p.windowMinutes && t.amount <= p.unitLimit
  }

  /** The greedy extension of the window opened by `ev[i]`, from position
      `j` on: the longest run of consecutive fitting transactions, which
      ends at the first transaction that does not fit. */
  function Extend(p: Params, ev: seq<Transaction>, i: nat, j: nat): (r: seq<Transaction>)
    requires i < |ev| && j <= |ev|
    ensures j + |r| <= |ev|
    ensures r == ev[j..j + |r|]
    ensures forall t :: t in r ==> Fits(p, ev[i], t)
    ensures j + |r| == |ev| || !Fits(p, ev[i], ev[j + |r|])
    decreases |ev| - j
  {
    if j < |ev| && Fits(p, ev[i], ev[j]) then
      var rest := Extend(p, ev, i, j + 1);
      assert ev[j..j + 1 + |rest|] == [ev[j]] + ev[j + 1..j + 1 + |rest|];
      [ev[j]] + rest
    else []
  }

  /** The group of the window opened by `ev[i]`: the maximal run of
      consecutive fitting transactions starting at `ev[i]` itself. */
  function Window(p: Params, ev: seq<Transaction>, i: nat): (r: seq<Transaction>)
    requires i < |ev|
    ensures i + |r| <= |ev|
    ensures r == ev[i..i + |r|]
    ensures forall t :: t in r ==> Fits(p, ev[i], t)
    ensures i + |r| == |ev| || !Fits(p, ev[i], ev[i + |r|])
  {
    Extend(p, ev, i, i)
  }

  /** The scan never skips a transfer above `unitLimit`: every window that
      opens at or before it ends before it. */
  lemma WindowStopsAtLargeTransfer(p: Params, ev: seq<Transaction>, i: nat, k: nat)
    requires i <= k < |ev| && ev[k].amount > p.unitLimit
    ensures |Window(p, ev, i)| <= k - i
  {
    var w := Window(p, ev, i);
    forall j | i <= j < i + |w| ensures ev[j].amount <= p.unitLimit {
      assert w[j - i] in w;
    }
  }

  /** The window opened by `ev[i]` is large enough to report. */
  predicate Qualifies(p: Params, ev: seq<Transaction>, i: nat)
    requires i < |ev|
  {
    |Window(p, ev, i)| >= p.minTx
  }

  /** The first start position at or after `from` whose window qualifies. */
  function FirstStart(p: Params, ev: seq<Transaction>, from: nat): (r: Option<nat>)
    ensures r.Some? ==> from <= r.value < |ev| && Qualifies(p, ev, r.value)
    ensures r.Some? ==> forall i :: from <= i < r.value ==> !Qualifies(p, ev, i)
    ensures r.None? ==> forall i :: from <= i < |ev| ==> !Qualifies(p, ev, i)
    decreases |ev| - from
  {
    if from >= |ev| then None
    else if Qualifies(p, ev, from) then Some(from)
    else FirstStart(p, ev, from + 1)
  }

  /** `i` is the first start position whose window qualifies. */
  predicate FirstQualifying(p: Params, ev: seq<Transaction>, i: nat) {
    && i < |ev|
    && Qualifies(p, ev, i)
    && forall j :: 0 <= j < i ==> !Qualifies(p, ev, j)
  }

  /** The finding for one origin: the window of the first start position
      that qualifies, if there is one. */
  function DetectOrigin(p: Params, txs: seq<Transaction>, o: Account): (r: Option<Suspicion>)
    ensures r.Some? ==> r.value.account == o && r.value.score == 2 && r.value.reason == SmurfingReason
  {
    var ev := Group(txs, o);
    match FirstStart(p, ev, 0)
    case None => None
    case Some(i) => Some(Suspicion(o, SmurfingReason, 2, Window(p, ev, i)))
  }

  /** An origin is reported iff one of its windows qualifies, and then with
      the window of the first qualifying start position: a contiguous run of
      its time-ordered transfers. */
  lemma DetectOriginIsFirstWindow(p: Params, txs: seq<Transaction>, o: Account)
    ensures DetectOrigin(p, txs, o).Some? ==>
              exists i :: FirstQualifying(p, Group(txs, o), i)
                          && DetectOrigin(p, txs, o).value.evidence == Window(p, Group(txs, o), i)
    ensures DetectOrigin(p, txs, o).None? <==>
              forall i :: 0 <= i < |Group(txs, o)| ==> !Qualifies(p, Group(txs, o), i)
    ensures DetectOrigin(p, txs, o).Some? ==>
              forall t :: t in DetectOrigin(p, txs, o).value.evidence ==> t in txs && t.origin == o
  {
    var ev := Group(txs, o);
    match FirstStart(p, ev, 0)
    case None =>
    case Some(i) =>
      WindowInGroup(p, ev, i);
  }

  /** A window holds only transactions of the list it scans. */
  lemma WindowInGroup(p: Params, ev: seq<Transaction>, i: nat)
    requires i < |ev|
    ensures forall t :: t in Window(p, ev, i) ==> t in ev
  {
    var g := Window(p, ev, i);
    forall t | t in g ensures t in ev {
      var j :| 0 <= j < |g| && g[j] == t;
      assert ev[i + j] == t;
    }
  }

  /** The findings `f` yields for the origins `os`, in order. */
  function Collect(os: seq<Account>, f: Account -> Option<Suspicion>): (r: seq<Suspicion>)
    ensures forall s :: s in r ==> exists o :: o in os && f(o) == Some(s)
    ensures forall o :: o in os && f(o).Some? ==> f(o).value in r
    ensures NoDuplicates(os) && (forall o :: o in os && f(o).Some? ==> f(o).value.account == o)
            ==> DistinctAccounts(r)
  {
    if |os| == 0 then []
    else
      var o := os[|os| - 1];
      var init := Collect(os[..|os| - 1], f);
      assert os == os[..|os| - 1] + [o];
      match f(o)
      case None => init
      case Some(s) =>
        assert NoDuplicates(os) && (forall o :: o in os && f(o).Some? ==> f(o).value.account == o)
               ==> forall x :: x in init ==> x.account != s.account by {
          if NoDuplicates(os) && (forall o :: o in os && f(o).Some? ==> f(o).value.account == o) {
            forall x | x in init ensures x.account != s.account {
              var o' :| o' in os[..|os| - 1] && f(o') == Some(x);
            }
          }
        }
        init + [s]
  }

  /** Only an origin of the batch can be reported. */
  lemma ReportedOriginSends(p: Params, txs: seq<Transaction>, o: Account)
    ensures DetectOrigin(p, txs, o).Some? ==> exists t :: t in txs && t.origin == o
  {
    DetectOriginIsFirstWindow(p, txs, o);
    var ev := Group(txs, o);
    if DetectOrigin(p, txs, o).Some? {
      assert ev[0] in ev;
    }
  }

  /** The detector: one finding per origin at most, exactly for the origins
      one of whose windows qualifies. */
  function Detect(p: Params, txs: seq<Transaction>): (r: seq<Suspicion>)
    ensures DistinctAccounts(r)
    ensures forall s :: s in r ==> DetectOrigin(p, txs, s.account) == Some(s)
    ensures forall o :: DetectOrigin(p, txs, o).Some? ==> DetectOrigin(p, txs, o).value in r
  {
    var os := Origins(txs);
    forall o | DetectOrigin(p, txs, o).Some? ensures o in os {
      ReportedOriginSends(p, txs, o);
    }
    Collect(os, o => DetectOrigin(p, txs, o))
  }

  /** The sort is stable: the transfers `o` sends in one minute `k` stay in
      input order, which decides where a window breaks among them. */
  lemma GroupKeepsSameMinuteOrder(txs: seq<Transaction>, o: Account, k: int)
    ensures Filter(Group(txs, o), KeyIs(TimeOf, k)) == Filter(txs, (t: Transaction) => t.origin == o && t.time == k)
  {
    var sent := (t: Transaction) => t.origin == o;
    var both := (t: Transaction) => t.origin == o && t.time == k;
    SortByIsStable(SentBy(txs, o), TimeOf, k);
    forall t: Transaction ensures both(t) == (sent(t) && KeyIs(TimeOf, k)(t)) {
      assert KeyIs(TimeOf, k)(t) == (TimeOf(t) == k);
    }
    FilterFilter(txs, sent, KeyIs(TimeOf, k), both);
  }
}
