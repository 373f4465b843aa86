# Suspicion pipeline: a verified Dafny model

This project models the detection and ranking engine of an anti-money-laundering
tool. The engine reads a batch of transfers between accounts and runs up to four
detectors over it:

- **FlowChecker** flags accounts whose net outflow exceeds a limit.
- **SmurfingDetector** flags origins that send a burst of small transfers within a
  time window.
- **LayeringDetector** flags origins of chains of transfers that pass money along
  quickly, keeping the amount almost the same.
- **CommunityDetector** flags every account of the k-core of the undirected
  transfer graph.

**RiskRanker** then merges the findings per account and sorts the accounts by
total score, highest first. The analysis run (`Pipeline.Analyze`) selects the
detectors from the user's option, "1" to "4" for one detector or "5" for all. It
concatenates their findings and ranks them.

Modules follow the source classes:

- `Transactions`: the `Transaction` and `Suspicion` records.
- `FlowChecker`.
- `SmurfingDetector`.
- `LayeringDetector`.
- `CommunityDetector`.
- `RiskRanker`.
- `Pipeline`: the dispatch.
- `Seqs` and `Wrappers`: generic helpers, namely filter, dedup, stable insertion sort and `Option`/`Result`.

Representation choices:

- **Amounts** are whole cents (`int`). The source's `double` limits become
  10 000 000, 2 000 000 and 500 000 cents.
- **Timestamps** are whole minutes (`int`). A difference of minutes is a plain
  subtraction, with no lower bound.
- **Map iteration order.** Where the source iterates a `HashMap` of accounts,
  the model fixes a deterministic order instead:
  - The flow, smurfing and community detectors walk accounts in order of first
    appearance in the batch.
  - The ranker lists merged entries in order of first appearance in the list of
    findings, not in the batch.
  - The peeling loop's inner step (`CommunityDetector.DropNeighbours`) takes
    the neighbours of a removed account in an arbitrary order, chosen by `:|`.
  All sorts are stable, as Java's `List.sort` is. The detectors' contracts hold
  for any such order, and so does `RiskRanker.Rank`'s contract (one expected
  entry per account, scores descending). Two contracts depend on the chosen
  order: `RiskRanker.Merge` states the position of each entry, and
  `Pipeline.Analyze` states that its result equals `RiskRanker.Rank` of the
  concatenated findings. Both fix the model's first-appearance order, so
  among entries of equal score their order can differ from the source's.

## Model

| member | source | states |
|---|---|---|
| FlowChecker.BalanceMap | src/SuspicionPipeline.java:296-300 | The balance table built in one pass, crediting each destination and then debiting each origin. Its contract is stated by `FlowChecker.BalanceMapIsBalance`. |
| FlowChecker.BalanceMapIsBalance | src/SuspicionPipeline.java:296-300 | The balance table built by merging +amount at the destination and −amount at the origin has exactly the batch's accounts as keys, and each entry equals received minus sent. |
| FlowChecker.FilterByAccount | src/SuspicionPipeline.java:313-321 | Keeps exactly the transactions the account sends or receives, each with its input multiplicity. |
| FlowChecker.FilterByAccountConcat | src/SuspicionPipeline.java:315-319 | The evidence keeps input order: filtering a batch split in two gives the first part's transactions followed by the second part's. |
| FlowChecker.Flag | src/SuspicionPipeline.java:301-309 | Walking the accounts, it flags exactly those whose table entry is strictly below −limit. Each flag is `Suspicion(account, "Desequilíbrio de fluxo", 1, all its transactions)`. Walking accounts without repeats flags no account twice. |
| FlowChecker.Check | src/SuspicionPipeline.java:294-311 | An account is flagged iff it occurs in the batch and its balance is strictly below −limit. A balance of exactly −limit is not flagged. Each account is flagged once, with score 1, the reason "Desequilíbrio de fluxo", and all its transactions as evidence. |
| SmurfingDetector.Origins | src/SuspicionPipeline.java:328-329 | The origins of the batch, each exactly once. |
| SmurfingDetector.Group | src/SuspicionPipeline.java:332-333 | An origin's transactions, sorted by time, as a permutation of exactly the transactions it sends. |
| SmurfingDetector.GroupKeepsSameMinuteOrder | src/SuspicionPipeline.java:329-333 | The sort is stable: the transfers an origin sends in one minute appear in the group in input order. That order decides where a window breaks among them. |
| SmurfingDetector.Extend | src/SuspicionPipeline.java:336-341 | The inner loop from position j is a contiguous run of the time-ordered list. Every element fits the window opened at i, and the run stops at the end of the list or at the first element that does not fit. |
| SmurfingDetector.Window | src/SuspicionPipeline.java:335-341 | The greedy group is the contiguous run starting at `i`. Every member fits: it is at most `windowMinutes` after `ev[i]` and at most `unitLimit`. The run ends at the end of the list or at the first transaction that does not fit. |
| SmurfingDetector.WindowStopsAtLargeTransfer | src/SuspicionPipeline.java:336-340 | The scan stops at the first violation and never skips past it: a transfer above `unitLimit` at position k ends every window that opens at or before k, so such a window holds at most k − i transactions. |
| SmurfingDetector.FirstStart | src/SuspicionPipeline.java:334-343 | Returns the least start index whose window qualifies (size ≥ `minTx`), or none when no index qualifies. |
| SmurfingDetector.DetectOrigin | src/SuspicionPipeline.java:331-343 | The result for one origin: when there is a finding, it is about that origin, with score 2 and the reason "Smurfing detectado". |
| SmurfingDetector.DetectOriginIsFirstWindow | src/SuspicionPipeline.java:331-343 | An origin is reported iff some window qualifies. The report then carries the window of the first qualifying start, and every evidence transaction is in the batch and has that origin. |
| SmurfingDetector.Detect | src/SuspicionPipeline.java:327-346 | At most one finding per origin. The findings are exactly the per-origin results: each has score 2 and the reason "Smurfing detectado". |
| SmurfingDetector.Collect | src/SuspicionPipeline.java:331-344 | Gathering the per-origin results loses none and invents none. Distinct origins give findings about distinct accounts. |
| Transactions.SentBy | src/SuspicionPipeline.java:353-354 | The adjacency list of an account, which is also the smurfing detector's group before sorting: exactly the transactions it sends, each with its input multiplicity. |
| Transactions.SentByConcat | src/SuspicionPipeline.java:353-354 | The list keeps input order: for a batch split in two, the first part's sent transactions come before the second part's. |
| LayeringDetector.Dfs | src/SuspicionPipeline.java:360-363 | Every reported chain extends the current path. It has max(\|path\|, maxDepth) transactions, is attributed to the seed's origin with score 3, and is a valid chain whenever the path is. |
| LayeringDetector.Explore | src/SuspicionPipeline.java:364-373 | Each candidate that extends the path is explored from the same path and visited set. Every result has `maxDepth` transactions, extends the path, and stays a valid chain. |
| LayeringDetector.ExtendChain | src/SuspicionPipeline.java:365-369 | Appending a hop that passes the visited, time and amount tests to a valid chain gives a valid chain. |
| LayeringDetector.Seeds | src/SuspicionPipeline.java:356-357 | The searches seeded by each transaction in turn report only valid chains of `ChainLength` transactions, attributed to their seed's origin with score 3. |
| LayeringDetector.Detect | src/SuspicionPipeline.java:352-358 | Every finding of the detector is such a valid chain. Completeness and multiplicity are stated by `LayeringDetector.DetectIsExactlyValidChains` and `LayeringDetector.DetectReportsEachChainOnce`. |
| LayeringDetector.ChainIsSimple | src/SuspicionPipeline.java:356-370 | In a valid chain, every transaction is in the batch and each hop leaves the previous destination. Each hop is at most `timeWindow` minutes later, with no lower bound, and \|Δamount\| ≤ delta. The destinations are pairwise distinct, and every destination after the seed differs from the seed origin. Only the seed may be a self-transfer. |
| LayeringDetector.DfsComplete | src/SuspicionPipeline.java:360-374 | Every valid chain of full length that extends the current path is reported by the search from that path. |
| LayeringDetector.ExploreContains | src/SuspicionPipeline.java:364-373 | A result of any branch appears in the output of the loop over the candidates. |
| LayeringDetector.SeedsComplete | src/SuspicionPipeline.java:356-357 | Every valid full-length chain seeded by one of the seeds is reported. |
| LayeringDetector.DetectIsExactlyValidChains | src/SuspicionPipeline.java:352-374 | Every finding is a valid chain of exactly max(1, maxDepth) transactions, attributed to its seed's origin with score 3. Conversely, every such valid chain is reported. |
| LayeringDetector.ExploreDistinct | src/SuspicionPipeline.java:364-373 | Branches over distinct candidates report distinct chains, because each branch's chains continue the path with its own candidate. |
| LayeringDetector.SeedsDistinct | src/SuspicionPipeline.java:356-357 | Distinct seeds report distinct chains, each starting with its own seed. |
| LayeringDetector.DetectReportsEachChainOnce | src/SuspicionPipeline.java:352-374 | On a batch without repeated transactions, no chain is reported twice, and every valid chain of `ChainLength` transactions is reported exactly once. Each chain therefore adds its score 3 to the ranking once. |
| CommunityDetector.Adjacency | src/SuspicionPipeline.java:388-392 | The adjacency table built in one pass, linking each origin to its destination and back. Its contract is stated by `CommunityDetector.AdjacencyIsNeighbours`. |
| CommunityDetector.AdjacencyIsNeighbours | src/SuspicionPipeline.java:388-392 | The adjacency table built in one pass has exactly the batch's accounts as keys, and each entry is exactly the account's set of neighbours in either direction. |
| CommunityDetector.AdjacencyIsUndirected | src/SuspicionPipeline.java:389-392 | The adjacency table is symmetric and closed: neighbours are accounts, and b ∈ adj[a] ⟹ a ∈ adj[b]. |
| CommunityDetector.DenseInAdjacency | src/SuspicionPipeline.java:388-398 | Density measured in the table, as the neighbour-set size restricted to a set, coincides with density in the batch. |
| CommunityDetector.Below | src/SuspicionPipeline.java:400-404 | The initial queue: exactly the accounts whose starting degree is below k. |
| CommunityDetector.Peel | src/SuspicionPipeline.java:394-423 | The cascading queue peeling terminates. The survivors are accounts of the graph in which every survivor has at least k surviving neighbours, and they contain every such dense set: they form the k-core. |
| CommunityDetector.PeelStep | src/SuspicionPipeline.java:408-421 | Polling one queued account keeps the peeling invariant: degrees track surviving neighbours, and the queue holds every survivor below k. No dense set loses a member. |
| CommunityDetector.DropNeighbours | src/SuspicionPipeline.java:413-420 | Removing an account decrements the degree of each surviving neighbour and queues those that fall below k. |
| CommunityDetector.DropOne | src/SuspicionPipeline.java:414-419 | One iteration of the neighbour loop: a neighbour not yet removed loses one degree and is queued when it falls below k. The inner-loop invariant is kept. |
| CommunityDetector.NotInDenseSet | src/SuspicionPipeline.java:401-402 | An account with fewer than k surviving neighbours belongs to no dense set, so removing it is safe. |
| CommunityDetector.KCoreMembers | src/SuspicionPipeline.java:423-427 | The k-core is unique: its members are exactly the accounts that belong to some k-core. |
| CommunityDetector.KCore | src/SuspicionPipeline.java:388-423 | The survivors of peeling are the k-core of the batch. |
| CommunityDetector.CommunityEvidence | src/SuspicionPipeline.java:428-433 | The shared evidence is exactly the transactions with both ends in the community, with input multiplicity. |
| CommunityDetector.CommunityEvidenceConcat | src/SuspicionPipeline.java:429-433 | The shared evidence keeps input order: for a batch split in two, the first part's transactions come before the second part's. |
| CommunityDetector.Announce | src/SuspicionPipeline.java:434-436 | Gives one finding per member, each with score 2 and the reason "Comunidade densa", all with the same evidence. |
| CommunityDetector.Detect | src/SuspicionPipeline.java:387-439 | The flagged accounts are exactly the k-core, each once. Each finding has score 2, the reason "Comunidade densa" and the shared evidence. An empty core gives no findings. |
| RiskRanker.Combine | src/SuspicionPipeline.java:446-451 | The merge function: it keeps the older account, joins the reasons with "; ", adds the scores and concatenates the evidence. What it builds is stated by `RiskRanker.MergedEntryAgain`. |
| RiskRanker.MergeStep | src/SuspicionPipeline.java:446 | One `Map.merge` call: it inserts a finding about a new account, or combines it with the existing entry. Its effect is stated by `RiskRanker.MergedEntryStep`. |
| RiskRanker.MergedMap | src/SuspicionPipeline.java:444-452 | The merge table after the whole loop. Its contract is stated by `RiskRanker.MergedEntry` and `RiskRanker.MergedMapIsExpected`. |
| RiskRanker.MergedEntryStep | src/SuspicionPipeline.java:445-452 | One more iteration of the merge loop keeps every entry equal to the expected merge of the findings seen so far. |
| RiskRanker.MergedEntry | src/SuspicionPipeline.java:444-452 | After the merge loop, the table has an entry for exactly the accounts with findings. Each entry's reasons are joined by "; " in input order, its score is the sum, and its evidence is the concatenation in input order. |
| RiskRanker.MergedMapIsExpected | src/SuspicionPipeline.java:444-452 | The same for the whole table: its keys are the accounts of the findings, and every entry is the expected merge. |
| RiskRanker.MergedEntryAgain | src/SuspicionPipeline.java:446-451 | A further finding about an account already in the table is appended to the entry: the reason is joined, the score added and the evidence concatenated. |
| RiskRanker.MergedEntryFirst | src/SuspicionPipeline.java:446 | The first finding about an account becomes its entry unchanged. |
| RiskRanker.AllEvidenceLength | src/SuspicionPipeline.java:457-461 | Merged evidence is not deduplicated: its length is the sum of the merged evidence lengths. |
| RiskRanker.Merge | src/SuspicionPipeline.java:453 | The merged entries: entry i is the expected merge of the i-th distinct account. |
| RiskRanker.MergeIsPerAccount | src/SuspicionPipeline.java:444-453 | The merged entries name every account of the input exactly once, each with its expected merge. |
| RiskRanker.Rank | src/SuspicionPipeline.java:443-456 | The output is sorted by score, highest first. It has exactly one entry per distinct input account, and no other entries. Each entry is that account's expected merge. |
| RiskRanker.RankIsPerAccount | src/SuspicionPipeline.java:453-455 | Any reordering of the merged entries keeps exactly one expected entry per account. |
| RiskRanker.RankKeepsDistinctFindings | src/SuspicionPipeline.java:443-456 | Ranking a list that names each account at most once, such as the flow, smurfing or community detector's output, returns exactly the same findings reordered. The layering detector names an origin once per chain, so ranking merges its chains into one entry. |
| Seqs.SortByIsStable | src/SuspicionPipeline.java:333 | The sort is stable: for every key, the elements with that key keep their relative input order. |
| Pipeline.SmurfAccounts | src/SuspicionPipeline.java:118-126 | The smurfing detector flags exactly the origins whose per-origin result is a finding. |
| Pipeline.LayerAccounts | src/SuspicionPipeline.java:128-136 | The layering detector flags exactly the origins of valid full-length chains. |
| Pipeline.CombinedAccounts | src/SuspicionPipeline.java:108-146 | The concatenated findings of the selected detectors name exactly the accounts that some selected detector flags. |
| Pipeline.Analyze | src/SuspicionPipeline.java:99-150 | An empty batch is a failure. Otherwise the result is exactly `RiskRanker.Rank` of the selected detectors' findings, concatenated flow, smurfing, layering and community, with the community findings being any list the community detector's contract allows. So the result is sorted by score, highest first, and names each account once: exactly the accounts a selected detector flags. Each entry holds the summed score, the joined reasons and the concatenated evidence of that account's findings. Option "5" selects all four detectors, and an unknown option selects none. |

## Left out

- Console menus, the main loop, timing, console output and the CSV and text
  report files (`main`, the menu printers, the timing and printing in
  `runAnalysis`, `saveResultsToCsv`, `saveExecutionTimes`,
  `Suspicion.toString`). These are I/O and wall-clock measurement.
- `loadTransactions`: reading and parsing the input file. The model starts
  from the parsed batch. The model does not check that the input file exists,
  because that is file I/O.
- Floating point: amounts are integer cents, so comparisons against the limits
  are exact, and rounding of `double` sums is not modelled.
- `LocalDateTime`: timestamps are integer minutes.
  `ChronoUnit.MINUTES.between` truncation of seconds is therefore not modelled.
- `HashMap` iteration order. The source's order of the FlowChecker, Smurfing and
  Community findings, and its order among RiskRanker entries with equal score,
  depend on hash iteration and are unspecified. The model uses first
  appearance, in the batch for the detectors and in the list of findings for
  the ranker. This order is deterministic (see "Map iteration order" above).
- Self-transfers and non-positive amounts are not rejected, exactly as in the
  source. A self-transfer makes an account its own neighbour in
  CommunityDetector. It also lets a layering seed end at its own origin.
- Score overflow: `Suspicion.score` is a 32-bit Java `int`, so the sum at
  `src/SuspicionPipeline.java:449` wraps around past 2 147 483 647. The model's
  scores are unbounded integers, so `RiskRanker.TotalScore` never wraps. Reaching
  the bound would take more than 700 million findings about one account.
- Object identity: the Java `Transaction` class has no `equals`, so two input
  lines with the same fields are distinct objects. In the model they are equal
  values. Both are still kept and searched separately, so multiplicities match.
  `LayeringDetector.DetectReportsEachChainOnce` states "exactly once" for
  batches without repeated transactions.
