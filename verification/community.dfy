/** CommunityDetector: the k-core of the undirected transaction graph,
    computed by cascading queue peeling, reported as one dense community. */
module CommunityDetector {
  import opened Seqs
  import opened Transactions

  /** The Java engine's setting: a minimum degree of 2. */
  const MinDegree: int := 2

  const CommunityReason: string := "Comunidade densa"

  /** The accounts `a` has exchanged money with, in either direction. A
      self-transfer makes an account its own neighbour. */
  function Neighbours(txs: seq<Transaction>, a: Account): set<Account> {
    (set t | t in txs && t.origin == a :: t.destination)
    + (set t | t in txs && t.destination == a :: t.origin)
  }

  /** Every member of `s` has at least `k` distinct neighbours in `s`. */
  predicate IsDense(txs: seq<Transaction>, s: set<Account>, k: int) {
    forall a :: a in s ==> |Neighbours(txs, a) * s| >= k
  }

  /** The k-core of the batch: the dense set that contains every dense set
      of accounts of the batch. */
  predicate IsKCore(txs: seq<Transaction>, core: set<Account>, k: int) {
    && core <= AccountSet(txs)
    && IsDense(txs, core, k)
    && forall s :: s <= AccountSet(txs) && IsDense(txs, s, k) ==> s <= core
  }

  /** Adds `b` to the neighbour set of `a`, creating it when absent. */
  function Link(g: map<Account, set<Account>>, a: Account, b: Account): (r: map<Account, set<Account>>)
    ensures r.Keys == g.Keys + {a}
    ensures forall x :: x in r ==> r[x] == (if x in g then g[x] else {}) + (if x == a then {b} else {})
  {
    g[a := (if a in g then g[a] else {}) + {b}]
  }

  /** The adjacency table the Java engine builds: one pass over the batch,
      linking origin to destination and destination to origin. */
  function Adjacency(txs: seq<Transaction>): map<Account, set<Account>> {
    if |txs| == 0 then map[]
    else
      var t := txs[|txs| - 1];
      Link(Link(Adjacency(txs[..|txs| - 1]), t.origin, t.destination), t.destination, t.origin)
  }

  /** The adjacency table holds every account of the batch with exactly its
      neighbours. */
  lemma {:induction false} AdjacencyIsNeighbours(txs: seq<Transaction>)
    ensures Adjacency(txs).Keys == AccountSet(txs)
    ensures forall a :: a in Adjacency(txs) ==> Adjacency(txs)[a] == Neighbours(txs, a)
  {
    if |txs| > 0 {
      var init := txs[..|txs| - 1];
      var t := txs[|txs| - 1];
      AdjacencyIsNeighbours(init);
      AccountSetSnoc(txs);
      var g0 := Adjacency(init);
      var g1 := Link(g0, t.origin, t.destination);
      var g := Link(g1, t.destination, t.origin);
      forall a | a in g ensures g[a] == Neighbours(txs, a) {
        NeighboursSnoc(txs, a);
        if a !in g0 {
          NotAnAccount(init, a);
        }
      }
    }
  }

  lemma NeighboursSnoc(txs: seq<Transaction>, a: Account)
    requires |txs| > 0
    ensures Neighbours(txs, a)
         == Neighbours(txs[..|txs| - 1], a)
            + (if txs[|txs| - 1].origin == a then {txs[|txs| - 1].destination} else {})
            + (if txs[|txs| - 1].destination == a then {txs[|txs| - 1].origin} else {})
  {
    assert txs == txs[..|txs| - 1] + [txs[|txs| - 1]];
  }

  lemma NotAnAccount(txs: seq<Transaction>, a: Account)
    requires a !in AccountSet(txs)
    ensures Neighbours(txs, a) == {}
  {
  }

  /** The table is a well-formed undirected graph. */
  predicate Undirected(g: map<Account, set<Account>>) {
    && (forall a :: a in g ==> g[a] <= g.Keys)
    && (forall a, b :: a in g && b in g[a] ==> a in g[b])
  }

  /** Every member of `s` has at least `k` neighbours in `s`, in `g`. */
  predicate DenseIn(g: map<Account, set<Account>>, s: set<Account>, k: int)
    requires s <= g.Keys
  {
    forall a :: a in s ==> |g[a] * s| >= k
  }

  /** `degrees` holds, for every account not yet removed, the number of
      its neighbours not yet removed. */
  predicate DegreesTrack(g: map<Account, set<Account>>, removed: set<Account>, degrees: map<Account, int>) {
    && degrees.Keys == g.Keys
    && forall a :: a in g && a !in removed ==> degrees[a] == |g[a] - removed|
  }

  /** The queue holds exactly the accounts not yet removed whose degree is
      below `k`, plus accounts already removed. */
  predicate QueueCovers(g: map<Account, set<Account>>, removed: set<Account>, degrees: map<Account, int>,
                        queue: seq<Account>, k: int)
    requires degrees.Keys == g.Keys
  {
    && (forall q :: q in queue ==> q in g)
    && (forall q :: q in queue && q !in removed ==> degrees[q] < k)
    && forall a :: a in g && a !in removed && degrees[a] < k ==> a in queue
  }

  /** No dense set of `g` meets `removed`. */
  predicate SparesDenseSets(g: map<Account, set<Account>>, removed: set<Account>, k: int) {
    forall s :: s <= g.Keys && DenseIn(g, s, k) ==> s !! removed
  }

  /** The loop invariant of the peeling. */
  predicate Peeling(g: map<Account, set<Account>>, k: int, removed: set<Account>,
                    degrees: map<Account, int>, queue: seq<Account>) {
    && removed <= g.Keys
    && DegreesTrack(g, removed, degrees)
    && QueueCovers(g, removed, degrees, queue, k)
    && SparesDenseSets(g, removed, k)
  }

  /** Cascading peeling: queue every account of degree below `k`; remove
      queued accounts one at a time, lowering the degree of their remaining
      neighbours and queueing those that drop below `k`. What survives is
      the k-core of `g`. */
  method Peel(g: map<Account, set<Account>>, order: seq<Account>, k: int) returns (core: set<Account>)
    requires Undirected(g)
    requires forall a :: a in order <==> a in g
    ensures core <= g.Keys
    ensures DenseIn(g, core, k)
    ensures forall s :: s <= g.Keys && DenseIn(g, s, k) ==> s <= core
  {
    var degrees := map a | a in g :: |g[a]|;
    var queue := Below(order, degrees, k);
    var removed: set<Account> := {};
    PeelingStart(g, order, k, degrees);
    while |queue| > 0
      invariant Peeling(g, k, removed, degrees, queue)
      decreases g.Keys - removed, |queue|
    {
      removed, degrees, queue := PeelStep(g, k, removed, degrees, queue);
    }
    core := g.Keys - removed;
    PeelingDone(g, k, removed, degrees);
  }

  /** Before any removal, the degrees are the neighbour counts and the queue
      holds the accounts of degree below `k`. */
  lemma PeelingStart(g: map<Account, set<Account>>, order: seq<Account>, k: int, degrees: map<Account, int>)
    requires forall a :: a in order <==> a in g
    requires degrees == map a | a in g :: |g[a]|
    ensures Peeling(g, k, {}, degrees, Below(order, degrees, k))
  {
    var queue := Below(order, degrees, k);
    assert DegreesTrack(g, {}, degrees) by {
      forall a | a in g ensures degrees[a] == |g[a] - {}| {
        assert g[a] - {} == g[a];
      }
    }
    assert QueueCovers(g, {}, degrees, queue, k);
    assert SparesDenseSets(g, {}, k);
  }

  /** One round of the peeling loop: take the head of the queue and, unless
      it is already removed, remove it. */
  method PeelStep(g: map<Account, set<Account>>, k: int, removed0: set<Account>,
                  degrees0: map<Account, int>, queue0: seq<Account>)
    returns (removed: set<Account>, degrees: map<Account, int>, queue: seq<Account>)
    requires Undirected(g)
    requires Peeling(g, k, removed0, degrees0, queue0) && |queue0| > 0
    ensures Peeling(g, k, removed, degrees, queue)
    ensures (g.Keys - removed < g.Keys - removed0) || (removed == removed0 && |queue| < |queue0|)
  {
    var v := queue0[0];
    queue := queue0[1..];
    if v in removed0 {
      removed, degrees := removed0, degrees0;
      return;
    }
    NotInDenseSet(g, removed0, v, k);
    removed := removed0 + {v};
    degrees, queue := DropNeighbours(g, v, removed, degrees0, queue, k);
  }

  /** Once the queue is empty, the accounts left form the k-core. */
  lemma PeelingDone(g: map<Account, set<Account>>, k: int, removed: set<Account>, degrees: map<Account, int>)
    requires Undirected(g)
    requires Peeling(g, k, removed, degrees, [])
    ensures DenseIn(g, g.Keys - removed, k)
    ensures forall s :: s <= g.Keys && DenseIn(g, s, k) ==> s <= g.Keys - removed
  {
    var core := g.Keys - removed;
    forall a | a in core ensures |g[a] * core| >= k {
      assert g[a] * core == g[a] - removed;
      assert a !in [];
    }
    forall s | s <= g.Keys && DenseIn(g, s, k) ensures s <= core {
      assert s !! removed;
    }
  }

  /** The accounts of `order` whose degree is below `k`, in order: the
      initial queue. */
  function Below(order: seq<Account>, degrees: map<Account, int>, k: int): (r: seq<Account>)
    ensures forall a :: a in r <==> a in order && a in degrees && degrees[a] < k
  {
    if |order| == 0 then []
    else
      var a := order[|order| - 1];
      assert order == order[..|order| - 1] + [a];
      Below(order[..|order| - 1], degrees, k) + (if a in degrees && degrees[a] < k then [a] else [])
  }

  /** The invariant of the inner loop: the neighbours of the removed `v`
      still in `todo` have not had their degree lowered yet. */
  predicate Dropping(g: map<Account, set<Account>>, v: Account, removed: set<Account>, k: int,
                     degrees: map<Account, int>, queue: seq<Account>, todo: set<Account>)
    requires v in g
  {
    && todo <= g[v]
    && degrees.Keys == g.Keys
    && (forall a :: a in g && a !in removed ==>
          degrees[a] == |g[a] - removed| + (if a in todo then 1 else 0))
    && QueueCovers(g, removed, degrees, queue, k)
  }

  /** The inner loop of the peeling: after `v` is removed, each remaining
      neighbour of `v` loses one degree and is queued if it drops below `k`. */
  method DropNeighbours(g: map<Account, set<Account>>, v: Account, removed: set<Account>,
                        degrees0: map<Account, int>, queue0: seq<Account>, k: int)
    returns (degrees: map<Account, int>, queue: seq<Account>)
    requires Undirected(g)
    requires v in removed && removed <= g.Keys
    requires DegreesTrack(g, removed - {v}, degrees0)
    requires QueueCovers(g, removed, degrees0, queue0, k)
    ensures DegreesTrack(g, removed, degrees)
    ensures QueueCovers(g, removed, degrees, queue, k)
  {
    degrees, queue := degrees0, queue0;
    var todo := g[v];
    DegreesBeforeDrop(g, v, removed, degrees);
    while todo != {}
      invariant Dropping(g, v, removed, k, degrees, queue, todo)
      decreases todo
    {
      var n :| n in todo;
      degrees, queue := DropOne(g, v, removed, k, degrees, queue, todo, n);
      todo := todo - {n};
    }
  }

  /** Lowers the degree of one neighbour `n` of the removed `v`. */
  method DropOne(g: map<Account, set<Account>>, v: Account, removed: set<Account>, k: int,
                 degrees0: map<Account, int>, queue0: seq<Account>, todo: set<Account>, n: Account)
    returns (degrees: map<Account, int>, queue: seq<Account>)
    requires Undirected(g)
    requires v in g && n in todo
    requires Dropping(g, v, removed, k, degrees0, queue0, todo)
    ensures Dropping(g, v, removed, k, degrees, queue, todo - {n})
  {
    degrees, queue := degrees0, queue0;
    if n !in removed {
      degrees := degrees[n := degrees[n] - 1];
      if degrees[n] < k {
        queue := queue + [n];
      }
    }
  }

  lemma DegreesBeforeDrop(g: map<Account, set<Account>>, v: Account, removed: set<Account>,
                          degrees: map<Account, int>)
    requires Undirected(g)
    requires v in removed && removed <= g.Keys
    requires DegreesTrack(g, removed - {v}, degrees)
    ensures forall a :: a in g && a !in removed ==>
              degrees[a] == |g[a] - removed| + (if a in g[v] then 1 else 0)
  {
    forall a | a in g && a !in removed
      ensures degrees[a] == |g[a] - removed| + (if a in g[v] then 1 else 0)
    {
      RemoveOneMore(g[a], removed, v);
    }
  }

  /** Removing one more account lowers the count of remaining members of a
      set by one exactly when the account belongs to it. */
  lemma RemoveOneMore(a: set<Account>, removed: set<Account>, v: Account)
    requires v in removed
    ensures |a - (removed - {v})| == |a - removed| + (if v in a then 1 else 0)
  {
    if v in a {
      assert a - (removed - {v}) == (a - removed) + {v};
    } else {
      assert a - (removed - {v}) == a - removed;
    }
  }

  lemma NotInDenseSet(g: map<Account, set<Account>>, removed: set<Account>, v: Account, k: int)
    requires removed <= g.Keys && v in g
    requires |g[v] - removed| < k
    requires SparesDenseSets(g, removed, k)
    ensures SparesDenseSets(g, removed + {v}, k)
  {
    forall s | s <= g.Keys && DenseIn(g, s, k) ensures v !in s {
      if v in s {
        SubsetCardinality(g[v] * s, g[v] - removed);
        assert false;
      }
    }
  }

  /** The adjacency table is an undirected graph over the batch's accounts. */
  lemma AdjacencyIsUndirected(txs: seq<Transaction>)
    ensures Undirected(Adjacency(txs))
  {
    AdjacencyIsNeighbours(txs);
    var g := Adjacency(txs);
    forall a, b | a in g && b in g[a] ensures a in g[b] {
      assert b in Neighbours(txs, a);
    }
    forall a | a in g ensures g[a] <= g.Keys {
      forall b | b in g[a] ensures b in AccountSet(txs) {
        assert b in Neighbours(txs, a);
      }
    }
  }

  /** Density in the adjacency table is density in the batch. */
  lemma DenseInAdjacency(txs: seq<Transaction>, s: set<Account>, k: int)
    requires s <= Adjacency(txs).Keys
    ensures DenseIn(Adjacency(txs), s, k) <==> IsDense(txs, s, k)
  {
    AdjacencyIsNeighbours(txs);
  }

  /** The k-core is unique: two sets that both satisfy the definition are
      the same set. */
  lemma KCoreIsUnique(txs: seq<Transaction>, c1: set<Account>, c2: set<Account>, k: int)
    requires IsKCore(txs, c1, k) && IsKCore(txs, c2, k)
    ensures c1 == c2
  {
  }

  /** `a` belongs to a k-core of the batch. */
  ghost predicate InKCore(txs: seq<Transaction>, a: Account, k: int) {
    exists core :: IsKCore(txs, core, k) && a in core
  }

  /** Since the k-core is unique, its members are exactly the accounts
      that belong to some k-core. */
  lemma KCoreMembers(txs: seq<Transaction>, core: set<Account>, k: int)
    requires IsKCore(txs, core, k)
    ensures forall a :: a in core <==> InKCore(txs, a, k)
  {
    forall a | InKCore(txs, a, k) ensures a in core {
      var other :| IsKCore(txs, other, k) && a in other;
      KCoreIsUnique(txs, other, core, k);
    }
  }

  /** The transactions with both ends in `community`, in input order. */
  function CommunityEvidence(txs: seq<Transaction>, community: set<Account>): (r: seq<Transaction>)
    ensures forall t :: t in r ==> t.origin in community && t.destination in community
    ensures forall t :: multiset(r)[t]
                        == if t.origin in community && t.destination in community then multiset(txs)[t] else 0
  {
    Filter(txs, (t: Transaction) => t.origin in community && t.destination in community)
  }

  /** The k-core of the adjacency table is the k-core of the batch. */
  lemma AdjacencyCore(txs: seq<Transaction>, core: set<Account>, k: int)
    requires core <= Adjacency(txs).Keys
    requires DenseIn(Adjacency(txs), core, k)
    requires forall s :: s <= Adjacency(txs).Keys && DenseIn(Adjacency(txs), s, k) ==> s <= core
    ensures IsKCore(txs, core, k)
  {
    AdjacencyIsNeighbours(txs);
    DenseInAdjacency(txs, core, k);
    forall s | s <= AccountSet(txs) && IsDense(txs, s, k) ensures s <= core {
      DenseInAdjacency(txs, s, k);
    }
  }

  /** The k-core of the batch, by peeling its adjacency table. */
  method KCore(txs: seq<Transaction>, k: int) returns (core: set<Account>)
    ensures IsKCore(txs, core, k)
  {
    var g := Adjacency(txs);
    AdjacencyIsNeighbours(txs);
    AdjacencyIsUndirected(txs);
    core := Peel(g, Accounts(txs), k);
    AdjacencyCore(txs, core, k);
  }

  /** One finding per member, in order, all with the same evidence. */
  function Announce(members: seq<Account>, evidence: seq<Transaction>): (r: seq<Suspicion>)
    ensures forall s :: s in r ==> s.score == 2 && s.reason == CommunityReason && s.evidence == evidence
    ensures SuspectAccounts(r) == set a | a in members
    ensures NoDuplicates(members) ==> DistinctAccounts(r)
  {
    if |members| == 0 then []
    else
      var init := Announce(members[..|members| - 1], evidence);
      var a := members[|members| - 1];
      var s := Suspicion(a, CommunityReason, 2, evidence);
      assert members == members[..|members| - 1] + [a];
      assert SuspectAccounts(init + [s]) == SuspectAccounts(init) + {a};
      init + [s]
  }

  /** The detector: one finding per account of the k-core of the batch, all
      sharing as evidence the transactions inside the core; no finding when
      the core is empty. */
  method Detect(txs: seq<Transaction>, k: int) returns (r: seq<Suspicion>)
    ensures IsKCore(txs, SuspectAccounts(r), k)
    ensures DistinctAccounts(r)
    ensures forall s :: s in r ==>
              s.score == 2 && s.reason == CommunityReason
              && s.evidence == CommunityEvidence(txs, SuspectAccounts(r))
  {
    var core := KCore(txs, k);
    var members := Filter(Accounts(txs), a => a in core);
    FilterKeepsDistinct(Accounts(txs), a => a in core);
    assert (set a | a in members) == core;
    r := Announce(members, CommunityEvidence(txs, core));
  }

  /** The shared evidence keeps input order: the transactions of a prefix
      come before those of the rest. */
  lemma CommunityEvidenceConcat(a: seq<Transaction>, b: seq<Transaction>, community: set<Account>)
    ensures CommunityEvidence(a + b, community) == CommunityEvidence(a, community) + CommunityEvidence(b, community)
  {
    FilterConcat(a, b, (t: Transaction) => t.origin in community && t.destination in community);
  }
}
