/** RiskRanker: merges the findings of all detectors per account and ranks
    the accounts by total score, highest first. */
module RiskRanker {
  import opened Seqs
  import opened Transactions

  const Separator: string := "; "

  /** The Java engine's merge function: keep the account, join the reasons,
      add the scores and concatenate the evidence. */
  function Combine(older: Suspicion, newer: Suspicion): Suspicion {
    Suspicion(older.account, older.reason + Separator + newer.reason,
              older.score + newer.score, older.evidence + newer.evidence)
  }

  /** One step of the Java engine's `Map.merge` loop. */
  function MergeStep(m: map<Account, Suspicion>, s: Suspicion): map<Account, Suspicion> {
    if s.account in m then m[s.account := Combine(m[s.account], s)] else m[s.account := s]
  }

  /** The merge table after the whole list, in input order. */
  function MergedMap(alerts: seq<Suspicion>): map<Account, Suspicion> {
    if |alerts| == 0 then map[]
    else MergeStep(MergedMap(alerts[..|alerts| - 1]), alerts[|alerts| - 1])
  }

  // An independent description of what one merged entry should hold.

  /** The findings about `a`, in input order. */
  function About(alerts: seq<Suspicion>, a: Account): (r: seq<Suspicion>)
    ensures forall s :: s in r <==> s in alerts && s.account == a
  {
    Filter(alerts, (s: Suspicion) => s.account == a)
  }

  function TotalScore(ss: seq<Suspicion>): int {
    if |ss| == 0 then 0 else TotalScore(ss[..|ss| - 1]) + ss[|ss| - 1].score
  }

  function AllEvidence(ss: seq<Suspicion>): seq<Transaction> {
    if |ss| == 0 then [] else AllEvidence(ss[..|ss| - 1]) + ss[|ss| - 1].evidence
  }

  function EvidenceCount(ss: seq<Suspicion>): int {
    if |ss| == 0 then 0 else EvidenceCount(ss[..|ss| - 1]) + |ss[|ss| - 1].evidence|
  }

  function Reasons(ss: seq<Suspicion>): (r: seq<string>)
    ensures |r| == |ss|
  {
    if |ss| == 0 then [] else Reasons(ss[..|ss| - 1]) + [ss[|ss| - 1].reason]
  }

  /** The strings of `rs` with `sep` between consecutive ones. */
  function Join(rs: seq<string>, sep: string): string {
    if |rs| == 0 then ""
    else if |rs| == 1 then rs[0]
    else Join(rs[..|rs| - 1], sep) + sep + rs[|rs| - 1]
  }

  /** The merged entry of `a`: its reasons joined by "; ", the sum of its
      scores and the concatenation of its evidence, all in input order. */
  function Expected(alerts: seq<Suspicion>, a: Account): Suspicion {
    Summary(a, About(alerts, a))
  }

  function Summary(a: Account, ss: seq<Suspicion>): Suspicion {
    Suspicion(a, Join(Reasons(ss), Separator), TotalScore(ss), AllEvidence(ss))
  }

  /** Merged evidence is never deduplicated: its length is the sum of the
      lengths of the merged evidence lists. */
  lemma {:induction false} AllEvidenceLength(ss: seq<Suspicion>)
    ensures |AllEvidence(ss)| == EvidenceCount(ss)
  {
    if |ss| > 0 {
      AllEvidenceLength(ss[..|ss| - 1]);
    }
  }

  /** The merge table has an entry for exactly the accounts of the list,
      holding the expected merge of that account's findings. */
  lemma {:induction false} MergedEntry(alerts: seq<Suspicion>, a: Account)
    ensures a in MergedMap(alerts) <==> a in SuspectAccounts(alerts)
    ensures a in MergedMap(alerts) ==> MergedMap(alerts)[a] == Expected(alerts, a)
  {
    if |alerts| > 0 {
      var init := alerts[..|alerts| - 1];
      MergedEntry(init, a);
      assert alerts == init + [alerts[|alerts| - 1]];
      MergedEntryStep(init, alerts[|alerts| - 1], a);
    }
  }

  /** One more finding keeps every entry of the table as expected. */
  lemma MergedEntryStep(init: seq<Suspicion>, last: Suspicion, a: Account)
    requires a in MergedMap(init) <==> a in SuspectAccounts(init)
    requires a in MergedMap(init) ==> MergedMap(init)[a] == Expected(init, a)
    ensures a in MergedMap(init + [last]) <==> a in SuspectAccounts(init + [last])
    ensures a in MergedMap(init + [last]) ==> MergedMap(init + [last])[a] == Expected(init + [last], a)
  {
    var alerts := init + [last];
    assert alerts[..|init|] == init;
    assert MergedMap(alerts) == MergeStep(MergedMap(init), last);
    assert SuspectAccounts(alerts) == SuspectAccounts(init) + {last.account};
    if a != last.account {
      MergedEntryOther(init, last, a);
    } else if a in MergedMap(init) {
      MergedEntryAgain(init, last);
    } else {
      MergedEntryFirst(init, last);
    }
  }

  /** A finding about another account leaves the expected entry alone. */
  lemma MergedEntryOther(init: seq<Suspicion>, last: Suspicion, a: Account)
    requires a != last.account
    ensures Expected(init + [last], a) == Expected(init, a)
  {
    assert (init + [last])[..|init|] == init;
    AboutSnoc(init + [last], a);
  }

  /** A later finding about an account already in the table is appended to
      its entry. */
  lemma MergedEntryAgain(init: seq<Suspicion>, last: Suspicion)
    requires last.account in SuspectAccounts(init)
    ensures Combine(Expected(init, last.account), last)
         == Expected(init + [last], last.account)
  {
    var a := last.account;
    var before := About(init, a);
    AboutAppend(init, last);
    assert before != [] by {
      var s :| s in init && s.account == a;
      assert s in before;
    }
    SummaryAppend(a, before, last);
  }

  lemma AboutAppend(init: seq<Suspicion>, last: Suspicion)
    ensures About(init + [last], last.account) == About(init, last.account) + [last]
  {
    AboutSnoc(init + [last], last.account);
    assert (init + [last])[..|init|] == init;
  }

  lemma SummaryAppend(a: Account, ss: seq<Suspicion>, last: Suspicion)
    requires ss != [] && last.account == a
    ensures Combine(Summary(a, ss), last) == Summary(a, ss + [last])
  {
    SummariesSnoc(ss, last);
    JoinSnoc(Reasons(ss), Separator, last.reason);
  }

  /** The first finding about an account becomes its entry. */
  lemma MergedEntryFirst(init: seq<Suspicion>, last: Suspicion)
    requires last.account !in SuspectAccounts(init)
    ensures last == Expected(init + [last], last.account)
  {
    var a := last.account;
    var before := About(init, a);
    AboutSnoc(init + [last], a);
    assert (init + [last])[..|init|] == init;
    assert before == [];
    assert About(init + [last], a) == [] + [last];
    SummariesSnoc([], last);
  }

  lemma SummariesSnoc(ss: seq<Suspicion>, x: Suspicion)
    ensures Reasons(ss + [x]) == Reasons(ss) + [x.reason]
    ensures TotalScore(ss + [x]) == TotalScore(ss) + x.score
    ensures AllEvidence(ss + [x]) == AllEvidence(ss) + x.evidence
  {
    assert (ss + [x])[..|ss|] == ss;
  }

  /** The merge table holds exactly the expected entries. */
  lemma MergedMapIsExpected(alerts: seq<Suspicion>)
    ensures MergedMap(alerts).Keys == SuspectAccounts(alerts)
    ensures forall a :: a in MergedMap(alerts) ==> MergedMap(alerts)[a] == Expected(alerts, a)
  {
    forall a ensures a in MergedMap(alerts) <==> a in SuspectAccounts(alerts) {
      MergedEntry(alerts, a);
    }
    forall a | a in MergedMap(alerts) ensures MergedMap(alerts)[a] == Expected(alerts, a) {
      MergedEntry(alerts, a);
    }
  }

  lemma AboutSnoc(alerts: seq<Suspicion>, a: Account)
    requires |alerts| > 0
    ensures About(alerts, a)
         == About(alerts[..|alerts| - 1], a) + (if alerts[|alerts| - 1].account == a then [alerts[|alerts| - 1]] else [])
  {
  }

  lemma JoinSnoc(rs: seq<string>, sep: string, x: string)
    requires |rs| > 0
    ensures Join(rs + [x], sep) == Join(rs, sep) + sep + x
  {
    assert (rs + [x])[..|rs|] == rs;
  }

  /** The accounts of the list, once each, in order of first appearance. */
  function AccountOrder(alerts: seq<Suspicion>): (r: seq<Account>)
    ensures NoDuplicates(r)
    ensures forall a :: a in r <==> a in SuspectAccounts(alerts)
  {
    var accts := seq(|alerts|, i requires 0 <= i < |alerts| => alerts[i].account);
    assert forall a :: a in accts <==> a in SuspectAccounts(alerts) by {
      forall a | a in SuspectAccounts(alerts) ensures a in accts {
        var s :| s in alerts && s.account == a;
        var i :| 0 <= i < |alerts| && alerts[i] == s;
        assert accts[i] == a;
      }
    }
    Dedup(accts)
  }

  /** The merged entries in order of first appearance: entry `i` is the
      expected merge of the `i`-th distinct account of the list. */
  function Merge(alerts: seq<Suspicion>): (r: seq<Suspicion>)
    ensures |r| == |AccountOrder(alerts)|
    ensures forall i :: 0 <= i < |r| ==> r[i] == Expected(alerts, AccountOrder(alerts)[i])
  {
    var order := AccountOrder(alerts);
    MergedMapIsExpected(alerts);
    var m := MergedMap(alerts);
    seq(|order|, i requires 0 <= i < |order| => m[order[i]])
  }

  /** The merged entries name each account of the list exactly once. */
  lemma MergeIsPerAccount(alerts: seq<Suspicion>)
    ensures DistinctAccounts(Merge(alerts))
    ensures NoDuplicates(Merge(alerts))
    ensures SuspectAccounts(Merge(alerts)) == SuspectAccounts(alerts)
    ensures forall s :: s in Merge(alerts) ==> s == Expected(alerts, s.account)
  {
    var order := AccountOrder(alerts);
    var r := Merge(alerts);
    forall i | 0 <= i < |r| ensures r[i].account == order[i] {
      assert r[i] == Expected(alerts, order[i]);
    }
    EntriesPerAccount(alerts, r, order);
  }

  lemma EntriesPerAccount(alerts: seq<Suspicion>, r: seq<Suspicion>, order: seq<Account>)
    requires |r| == |order| && NoDuplicates(order)
    requires forall a :: a in order <==> a in SuspectAccounts(alerts)
    requires forall i :: 0 <= i < |r| ==> r[i].account == order[i]
    requires forall i :: 0 <= i < |r| ==> r[i] == Expected(alerts, order[i])
    ensures DistinctAccounts(r)
    ensures NoDuplicates(r)
    ensures SuspectAccounts(r) == SuspectAccounts(alerts)
    ensures forall s :: s in r ==> s == Expected(alerts, s.account)
  {
    forall a | a in SuspectAccounts(alerts) ensures a in SuspectAccounts(r) {
      var i :| 0 <= i < |order| && order[i] == a;
      assert r[i] in r;
    }
  }

  function NegScore(s: Suspicion): int { -s.score }

  /** The ranking: exactly one entry per account of the input, holding the
      merge of its findings, sorted by score, highest first. Entries of
      equal score keep the order in which their accounts first appear. */
  function Rank(alerts: seq<Suspicion>): (r: seq<Suspicion>)
    ensures forall i, j :: 0 <= i < j < |r| ==> r[i].score >= r[j].score
    ensures DistinctAccounts(r)
    ensures SuspectAccounts(r) == SuspectAccounts(alerts)
    ensures forall s :: s in r ==> s == Expected(alerts, s.account)
    ensures |r| == |SuspectAccounts(alerts)|
  {
    var r := SortBy(Merge(alerts), NegScore);
    RankIsPerAccount(alerts, r);
    r
  }

  /** Any reordering of the merged entries keeps one entry per account. */
  lemma RankIsPerAccount(alerts: seq<Suspicion>, r: seq<Suspicion>)
    requires multiset(r) == multiset(Merge(alerts))
    ensures DistinctAccounts(r)
    ensures SuspectAccounts(r) == SuspectAccounts(alerts)
    ensures forall s :: s in r ==> s == Expected(alerts, s.account)
    ensures |r| == |SuspectAccounts(alerts)|
  {
    var merged := Merge(alerts);
    MergeIsPerAccount(alerts);
    PermutationKeepsMembers(merged, r);
    PermutationKeepsDistinct(merged, r);
    ExpectedEntriesAreDistinct(alerts, r);
    assert SuspectAccounts(r) == SuspectAccounts(merged);
    DistinctAccountsCount(r);
  }

  /** Distinct expected entries are about distinct accounts. */
  lemma ExpectedEntriesAreDistinct(alerts: seq<Suspicion>, r: seq<Suspicion>)
    requires NoDuplicates(r)
    requires forall s :: s in r ==> s == Expected(alerts, s.account)
    ensures DistinctAccounts(r)
  {
    forall i, j | 0 <= i < j < |r| ensures r[i].account != r[j].account {
      assert r[i] in r && r[j] in r;
    }
  }

  /** Without duplicates, findings with distinct accounts number exactly as
      many as their accounts. */
  lemma {:induction false} DistinctAccountsCount(r: seq<Suspicion>)
    requires DistinctAccounts(r)
    ensures |r| == |SuspectAccounts(r)|
  {
    if |r| > 0 {
      var init := r[..|r| - 1];
      var last := r[|r| - 1];
      assert r == init + [last];
      assert DistinctAccounts(init);
      DistinctAccountsCount(init);
      SuspectAccountsSnoc(init, last);
      forall j | 0 <= j < |init| ensures init[j].account != last.account {
        assert init[j] == r[j];
      }
      assert last.account !in SuspectAccounts(init);
    }
  }

  lemma SuspectAccountsSnoc(init: seq<Suspicion>, last: Suspicion)
    ensures SuspectAccounts(init + [last]) == SuspectAccounts(init) + {last.account}
  {
    assert forall s :: s in init + [last] <==> s in init || s == last;
  }

  /** When no two findings share an account, each finding is its own
      merged entry. */
  lemma {:induction false} AboutDistinct(alerts: seq<Suspicion>, i: nat)
    requires DistinctAccounts(alerts) && i < |alerts|
    ensures About(alerts, alerts[i].account) == [alerts[i]]
  {
    var init := alerts[..|alerts| - 1];
    var last := alerts[|alerts| - 1];
    assert alerts == init + [last];
    assert DistinctAccounts(init);
    if i == |alerts| - 1 {
      AboutAbsent(init, last.account);
      AboutAppend(init, last);
    } else {
      assert init[i] == alerts[i];
      AboutDistinct(init, i);
      AboutSnoc(alerts, alerts[i].account);
    }
  }

  /** An account no finding names has no findings. */
  lemma AboutAbsent(alerts: seq<Suspicion>, a: Account)
    requires forall i :: 0 <= i < |alerts| ==> alerts[i].account != a
    ensures About(alerts, a) == []
  {
    assert forall s :: s in alerts ==> s.account != a;
  }

  /** Ranking findings that already name distinct accounts, as the flow,
      smurfing or community detector's output does, only reorders them. The
      layering detector names an origin once per chain, so its findings are
      merged. */
  lemma RankKeepsDistinctFindings(alerts: seq<Suspicion>)
    requires DistinctAccounts(alerts)
    ensures forall s :: s in Rank(alerts) <==> s in alerts
  {
    var r := Rank(alerts);
    forall i | 0 <= i < |alerts| ensures Expected(alerts, alerts[i].account) == alerts[i] {
      AboutDistinct(alerts, i);
      SummariesSnoc([], alerts[i]);
      assert [] + [alerts[i]] == [alerts[i]];
    }
    forall s | s in r ensures s in alerts {
      var t :| t in alerts && t.account == s.account;
    }
    forall t | t in alerts ensures t in r {
      assert t.account in SuspectAccounts(r);
      var s :| s in r && s.account == t.account;
    }
  }
}
