/** LayeringDetector: depth-first search, from every transaction of the
    batch, for simple chains of transfers whose consecutive hops stay close
    in time and in amount. */
module LayeringDetector {
  import opened Seqs
  import opened Transactions

  /** The Java engine's settings: 4 hops, 5000.0 currency units (in cents) and
      2880 minutes. */
  const MaxDepth: int := 4
  const AmountDelta: int := 500_000
  const TimeWindow: int := 2880

  const LayeringReason: string := "Layering detectado"

  datatype Params = Params(maxDepth: int, delta: int, timeWindow: int)

  function Abs(x: int): int { if x < 0 then -x else x }

  /** The accounts a path has visited: its first origin and every hop's
      destination. The Java engine keeps this set alongside the path, adding a
      destination when it extends the path and removing it when it
      backtracks, so it always equals this set. */
  function Visited(path: seq<Transaction>): set<Account>
    requires |path| > 0
  {
    {path[0].origin} + set k | 0 <= k < |path| :: path[k].destination
  }

  /** `nxt` may extend `path`: it leads to an unvisited account, happens at
      most `timeWindow` minutes after the last hop (earlier is allowed) and
      differs from its amount by at most `delta`. */
  predicate Extends(p: Params, path: seq<Transaction>, nxt: Transaction)
    requires |path| > 0
  {
    var last := path[|path| - 1];
    && nxt.destination !in Visited(path)
    && nxt.time - last.time <= p.timeWindow
    && Abs(nxt.amount - last.amount) <= p.delta
  }

  /** A chain the search may follow: its first transaction is in the batch
      and each later hop is a transaction of the batch leaving the previous
      hop's destination and extending the chain before it. */
  predicate ValidChain(p: Params, txs: seq<Transaction>, c: seq<Transaction>) {
    && |c| > 0
    && c[0] in txs
    && forall k :: 0 < k < |c| ==> Hop(p, txs, c[..k], c[k])
  }

  predicate Hop(p: Params, txs: seq<Transaction>, prefix: seq<Transaction>, nxt: Transaction)
    requires |prefix| > 0
  {
    && nxt in txs
    && nxt.origin == prefix[|prefix| - 1].destination
    && Extends(p, prefix, nxt)
  }

  /** The length of every reported chain. */
  function ChainLength(p: Params): nat {
    if p.maxDepth < 1 then 1 else p.maxDepth
  }

  function Finding(path: seq<Transaction>): Suspicion
    requires |path| > 0
  {
    Suspicion(path[0].origin, LayeringReason, 3, path)
  }

  /** The search from `path`: report it once it has `maxDepth` hops,
      otherwise try every outgoing transaction of its last destination. */
  function Dfs(p: Params, txs: seq<Transaction>, path: seq<Transaction>): (r: seq<Suspicion>)
    requires |path| > 0
    ensures forall s :: s in r ==> s.account == path[0].origin && s.score == 3 && s.reason == LayeringReason
    ensures forall s :: s in r ==> |s.evidence| == Max(|path|, p.maxDepth) && s.evidence[..|path|] == path
    ensures ValidChain(p, txs, path) ==> forall s :: s in r ==> ValidChain(p, txs, s.evidence)
    decreases p.maxDepth - |path|, 1, 0
  {
    if |path| >= p.maxDepth then [Finding(path)]
    else Explore(p, txs, path, SentBy(txs, path[|path| - 1].destination))
  }

  /** The search continued through each of `cands` that extends `path`, in
      order; each branch starts from the same path and visited set. */
  function Explore(p: Params, txs: seq<Transaction>, path: seq<Transaction>, cands: seq<Transaction>): (r: seq<Suspicion>)
    requires 0 < |path| < p.maxDepth
    requires forall t :: t in cands ==> t in txs && t.origin == path[|path| - 1].destination
    ensures forall s :: s in r ==> s.account == path[0].origin && s.score == 3 && s.reason == LayeringReason
    ensures forall s :: s in r ==> |s.evidence| == p.maxDepth && s.evidence[..|path|] == path
    ensures ValidChain(p, txs, path) ==> forall s :: s in r ==> ValidChain(p, txs, s.evidence)
    decreases p.maxDepth - |path|, 0, |cands|
  {
    if |cands| == 0 then []
    else
      var nxt := cands[0];
      var here := if Extends(p, path, nxt) then Dfs(p, txs, path + [nxt]) else [];
      (assert ValidChain(p, txs, path) && Extends(p, path, nxt) ==> ValidChain(p, txs, path + [nxt]) by {
        if ValidChain(p, txs, path) && Extends(p, path, nxt) {
          ExtendChain(p, txs, path, nxt);
        }
       }
       forall s | s in here ensures s.evidence[..|path|] == path {
         assert s.evidence[..|path| + 1] == path + [nxt];
         assert s.evidence[..|path|] == (s.evidence[..|path| + 1])[..|path|];
       }
       here) + Explore(p, txs, path, cands[1..])
  }

  function Max(a: int, b: int): int { if a < b then b else a }

  lemma ExtendChain(p: Params, txs: seq<Transaction>, path: seq<Transaction>, nxt: Transaction)
    requires ValidChain(p, txs, path)
    requires Hop(p, txs, path, nxt)
    ensures ValidChain(p, txs, path + [nxt])
  {
    var c := path + [nxt];
    forall k | 0 < k < |c| ensures Hop(p, txs, c[..k], c[k]) {
      if k < |path| {
        assert c[..k] == path[..k];
      } else {
        assert c[..k] == path;
      }
    }
  }

  /** The detector: the searches seeded by every transaction of the batch,
      in input order. */
  function Detect(p: Params, txs: seq<Transaction>): (r: seq<Suspicion>)
    ensures forall s :: s in r ==> Sound(p, txs, s)
  {
    Seeds(p, txs, txs)
  }

  /** A reported finding: a valid chain of `ChainLength` transactions,
      attributed to the origin of its seed, with score 3. */
  predicate Sound(p: Params, txs: seq<Transaction>, s: Suspicion) {
    && s.score == 3
    && s.reason == LayeringReason
    && |s.evidence| == ChainLength(p)
    && ValidChain(p, txs, s.evidence)
    && s.account == s.evidence[0].origin
  }

  function Seeds(p: Params, txs: seq<Transaction>, seeds: seq<Transaction>): (r: seq<Suspicion>)
    requires forall t :: t in seeds ==> t in txs
    ensures forall s :: s in r ==> Sound(p, txs, s)
  {
    if |seeds| == 0 then []
    else
      var seed := seeds[|seeds| - 1];
      assert ValidChain(p, txs, [seed]);
      Seeds(p, txs, seeds[..|seeds| - 1]) + Dfs(p, txs, [seed])
  }

  /** Every hop of a valid chain leaves the previous hop's destination, at
      most `timeWindow` minutes later, with an amount within `delta`; the
      seed's origin and the later hops' destinations are pairwise distinct
      (only the seed may be a self-transfer). */
  lemma ChainIsSimple(p: Params, txs: seq<Transaction>, c: seq<Transaction>)
    requires ValidChain(p, txs, c)
    ensures forall t :: t in c ==> t in txs
    ensures forall k :: 0 < k < |c| ==>
              && c[k].origin == c[k - 1].destination
              && c[k].time - c[k - 1].time <= p.timeWindow
              && Abs(c[k].amount - c[k - 1].amount) <= p.delta
    ensures forall i, j :: 0 <= i < j < |c| ==> c[i].destination != c[j].destination
    ensures forall j :: 0 < j < |c| ==> c[j].destination != c[0].origin
  {
    forall k | 0 < k < |c|
      ensures c[k] in txs && c[k].origin == c[k - 1].destination
      ensures c[k].time - c[k - 1].time <= p.timeWindow
      ensures Abs(c[k].amount - c[k - 1].amount) <= p.delta
      ensures c[k].destination != c[0].origin
      ensures forall i :: 0 <= i < k ==> c[i].destination != c[k].destination
    {
      HopAt(p, txs, c, k);
    }
    forall t | t in c ensures t in txs {
      var k :| 0 <= k < |c| && c[k] == t;
    }
  }

  /** The facts one hop of a valid chain contributes. */
  lemma HopAt(p: Params, txs: seq<Transaction>, c: seq<Transaction>, k: nat)
    requires ValidChain(p, txs, c) && 0 < k < |c|
    ensures c[k] in txs && c[k].origin == c[k - 1].destination
    ensures c[k].time - c[k - 1].time <= p.timeWindow
    ensures Abs(c[k].amount - c[k - 1].amount) <= p.delta
    ensures c[k].destination != c[0].origin
    ensures forall i :: 0 <= i < k ==> c[i].destination != c[k].destination
  {
    var prefix := c[..k];
    assert Hop(p, txs, prefix, c[k]);
    assert prefix[k - 1] == c[k - 1] && prefix[0] == c[0];
    forall i | 0 <= i < k ensures c[i].destination in Visited(prefix) {
      assert prefix[i] == c[i];
    }
  }

  /** Every finding extending `path` into a valid chain of `maxDepth`
      transactions is produced by the search from `path`. */
  lemma {:induction false} DfsComplete(p: Params, txs: seq<Transaction>, path: seq<Transaction>, c: seq<Transaction>)
    requires 0 < |path| <= |c|
    requires c[..|path|] == path
    requires |c| == Max(|path|, p.maxDepth)
    requires ValidChain(p, txs, c)
    ensures Finding(c) in Dfs(p, txs, path)
    decreases p.maxDepth - |path|
  {
    if |path| >= p.maxDepth {
      assert c == path;
    } else {
      var nxt := c[|path|];
      assert Hop(p, txs, c[..|path|], nxt);
      var cands := SentBy(txs, path[|path| - 1].destination);
      assert nxt in cands;
      assert c[..|path| + 1] == path + [nxt];
      DfsComplete(p, txs, path + [nxt], c);
      ExploreContains(p, txs, path, cands, nxt, Finding(c));
    }
  }

  /** Exploring a list of candidates follows each candidate that extends
      the path: sibling branches do not hide one another. */
  lemma {:induction false} ExploreContains(p: Params, txs: seq<Transaction>, path: seq<Transaction>,
                                           cands: seq<Transaction>, nxt: Transaction, s: Suspicion)
    requires 0 < |path| < p.maxDepth
    requires forall t :: t in cands ==> t in txs && t.origin == path[|path| - 1].destination
    requires nxt in cands && Extends(p, path, nxt)
    requires s in Dfs(p, txs, path + [nxt])
    ensures s in Explore(p, txs, path, cands)
  {
    if cands[0] != nxt {
      ExploreContains(p, txs, path, cands[1..], nxt, s);
    }
  }

  /** The seeds `seeds` produce every valid chain that starts with one of
      them. */
  lemma {:induction false} SeedsComplete(p: Params, txs: seq<Transaction>, seeds: seq<Transaction>, c: seq<Transaction>)
    requires forall t :: t in seeds ==> t in txs
    requires ValidChain(p, txs, c) && |c| == ChainLength(p) && c[0] in seeds
    ensures Finding(c) in Seeds(p, txs, seeds)
  {
    var last := seeds[|seeds| - 1];
    if c[0] == last {
      DfsComplete(p, txs, [last], c);
    } else {
      assert seeds == seeds[..|seeds| - 1] + [last];
      SeedsComplete(p, txs, seeds[..|seeds| - 1], c);
    }
  }

  /** The findings are exactly the valid chains of `ChainLength` transactions
      of the batch, each attributed to its seed's origin with score 3. */
  lemma DetectIsExactlyValidChains(p: Params, txs: seq<Transaction>)
    ensures forall s :: s in Detect(p, txs) ==> Sound(p, txs, s)
    ensures forall c :: ValidChain(p, txs, c) && |c| == ChainLength(p) ==> Finding(c) in Detect(p, txs)
  {
    forall c | ValidChain(p, txs, c) && |c| == ChainLength(p)
      ensures Finding(c) in Detect(p, txs)
    {
      SeedsComplete(p, txs, txs, c);
    }
  }

  /** Every result of exploring `cands` continues the path with one of
      them. */
  lemma {:induction false} ExploreHeads(p: Params, txs: seq<Transaction>, path: seq<Transaction>, cands: seq<Transaction>)
    requires 0 < |path| < p.maxDepth
    requires forall t :: t in cands ==> t in txs && t.origin == path[|path| - 1].destination
    ensures forall s :: s in Explore(p, txs, path, cands) ==> s.evidence[|path|] in cands
    decreases |cands|
  {
    if |cands| > 0 {
      var nxt := cands[0];
      ExploreHeads(p, txs, path, cands[1..]);
      if Extends(p, path, nxt) {
        forall s | s in Dfs(p, txs, path + [nxt]) ensures s.evidence[|path|] == nxt {
          assert s.evidence[|path|] == s.evidence[..|path| + 1][|path|];
        }
      }
    }
  }

  /** The search from one path reports no chain twice. */
  lemma {:induction false} DfsDistinct(p: Params, txs: seq<Transaction>, path: seq<Transaction>)
    requires |path| > 0 && NoDuplicates(txs)
    ensures NoDuplicates(Dfs(p, txs, path))
    decreases p.maxDepth - |path|, 1, 0
  {
    if |path| < p.maxDepth {
      FilterKeepsDistinct(txs, (t: Transaction) => t.origin == path[|path| - 1].destination);
      ExploreDistinct(p, txs, path, SentBy(txs, path[|path| - 1].destination));
    }
  }

  /** Sibling branches over distinct candidates report distinct chains. */
  lemma {:induction false} ExploreDistinct(p: Params, txs: seq<Transaction>, path: seq<Transaction>, cands: seq<Transaction>)
    requires 0 < |path| < p.maxDepth
    requires forall t :: t in cands ==> t in txs && t.origin == path[|path| - 1].destination
    requires NoDuplicates(txs) && NoDuplicates(cands)
    ensures NoDuplicates(Explore(p, txs, path, cands))
    decreases p.maxDepth - |path|, 0, |cands|
  {
    if |cands| > 0 {
      var nxt := cands[0];
      var rest := cands[1..];
      TailDistinct(cands);
      ExploreDistinct(p, txs, path, rest);
      ExploreHeads(p, txs, path, rest);
      BranchDistinct(p, txs, path, nxt);
      var here := if Extends(p, path, nxt) then Dfs(p, txs, path + [nxt]) else [];
      ConcatDistinct(here, Explore(p, txs, path, rest));
    }
  }

  /** The branch through `nxt` reports distinct chains, each continuing the
      path with `nxt`. */
  lemma {:induction false} BranchDistinct(p: Params, txs: seq<Transaction>, path: seq<Transaction>, nxt: Transaction)
    requires 0 < |path| < p.maxDepth && NoDuplicates(txs)
    ensures NoDuplicates(Dfs(p, txs, path + [nxt]))
    ensures forall s :: s in Dfs(p, txs, path + [nxt]) ==> s.evidence[|path|] == nxt
    decreases p.maxDepth - |path|, 0, 0
  {
    DfsDistinct(p, txs, path + [nxt]);
    forall s | s in Dfs(p, txs, path + [nxt]) ensures s.evidence[|path|] == nxt {
      assert s.evidence[|path|] == s.evidence[..|path| + 1][|path|];
    }
  }

  /** Distinct seeds report distinct chains, each starting with its seed. */
  lemma {:induction false} SeedsDistinct(p: Params, txs: seq<Transaction>, seeds: seq<Transaction>)
    requires forall t :: t in seeds ==> t in txs
    requires NoDuplicates(txs) && NoDuplicates(seeds)
    ensures NoDuplicates(Seeds(p, txs, seeds))
    ensures forall s :: s in Seeds(p, txs, seeds) ==> |s.evidence| > 0 && s.evidence[0] in seeds
  {
    if |seeds| > 0 {
      var init := seeds[..|seeds| - 1];
      var seed := seeds[|seeds| - 1];
      assert seeds == init + [seed];
      SeedsDistinct(p, txs, init);
      DfsDistinct(p, txs, [seed]);
      DfsHead(p, txs, seed);
      assert seed !in init;
      ConcatDistinct(Seeds(p, txs, init), Dfs(p, txs, [seed]));
    }
  }

  /** Every chain the search from a seed reports starts with that seed. */
  lemma DfsHead(p: Params, txs: seq<Transaction>, seed: Transaction)
    ensures forall s :: s in Dfs(p, txs, [seed]) ==> |s.evidence| > 0 && s.evidence[0] == seed
  {
    forall s | s in Dfs(p, txs, [seed]) ensures |s.evidence| > 0 && s.evidence[0] == seed {
      assert s.evidence[0] == s.evidence[..1][0];
    }
  }

  /** On a batch without repeated transactions, every valid chain of
      `ChainLength` transactions is reported exactly once, so each adds its
      score to the ranking once. */
  lemma DetectReportsEachChainOnce(p: Params, txs: seq<Transaction>)
    requires NoDuplicates(txs)
    ensures NoDuplicates(Detect(p, txs))
    ensures forall c :: ValidChain(p, txs, c) && |c| == ChainLength(p) ==> multiset(Detect(p, txs))[Finding(c)] == 1
  {
    SeedsDistinct(p, txs, txs);
    forall c | ValidChain(p, txs, c) && |c| == ChainLength(p)
      ensures multiset(Detect(p, txs))[Finding(c)] == 1
    {
      SeedsComplete(p, txs, txs, c);
      CountAtMostOne(Detect(p, txs), Finding(c));
    }
  }
}
