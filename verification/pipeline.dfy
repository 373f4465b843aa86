/** The analysis run: the detectors the user's option selects, over one
    non-empty batch, followed by the ranking of their combined findings. */
module Pipeline {
  import opened Wrappers
  import opened Transactions
  import FlowChecker
  import SmurfingDetector
  import LayeringDetector
  import CommunityDetector
  import RiskRanker

  /** The run stops before any detector when the batch is empty. */
  datatype AnalysisError = NoTransactions

  /** The option that selects every detector. */
  const AllDetectors: string := "5"

  const SmurfParams: SmurfingDetector.Params :=
    SmurfingDetector.Params(SmurfingDetector.WindowMinutes, SmurfingDetector.UnitLimit, SmurfingDetector.MinTx)

  const LayerParams: LayeringDetector.Params :=
    LayeringDetector.Params(LayeringDetector.MaxDepth, LayeringDetector.AmountDelta, LayeringDetector.TimeWindow)

  /** Option `choice` selects the detector numbered `option`. */
  predicate Runs(choice: string, option: string) {
    choice == option || choice == AllDetectors
  }

  // What each detector reports, stated through its reference definitions.

  predicate FlowFlags(txs: seq<Transaction>, a: Account) {
    a in AccountSet(txs) && FlowChecker.Balance(txs, a) < -FlowChecker.SuspectLimit
  }

  predicate SmurfFlags(txs: seq<Transaction>, a: Account) {
    SmurfingDetector.DetectOrigin(SmurfParams, txs, a).Some?
  }

  ghost predicate LayerFlags(txs: seq<Transaction>, a: Account) {
    exists c: seq<Transaction> :: LayeringDetector.ValidChain(LayerParams, txs, c)
                && |c| == LayeringDetector.ChainLength(LayerParams) && c[0].origin == a
  }

  /** `a` is flagged by one of the detectors `choice` selects. */
  ghost predicate Reported(txs: seq<Transaction>, choice: string, a: Account) {
    || (Runs(choice, "1") && FlowFlags(txs, a))
    || (Runs(choice, "2") && SmurfFlags(txs, a))
    || (Runs(choice, "3") && LayerFlags(txs, a))
    || (Runs(choice, "4") && CommunityDetector.InKCore(txs, a, CommunityDetector.MinDegree))
  }

  /** The findings of one detector when it is selected, none otherwise. */
  function When(on: bool, alerts: seq<Suspicion>): (r: seq<Suspicion>)
    ensures SuspectAccounts(r) == if on then SuspectAccounts(alerts) else {}
  {
    if on then alerts else []
  }

  /** What the community detector returns for the batch when option
      `choice` selects it, and no finding otherwise. The order of the
      findings is left open, as the Java engine's comes from a hash set. */
  ghost predicate CommunityFindings(txs: seq<Transaction>, choice: string, community: seq<Suspicion>) {
    if Runs(choice, "4") then
      && CommunityDetector.IsKCore(txs, SuspectAccounts(community), CommunityDetector.MinDegree)
      && DistinctAccounts(community)
      && forall s :: s in community ==>
           && s.score == 2 && s.reason == CommunityDetector.CommunityReason
           && s.evidence == CommunityDetector.CommunityEvidence(txs, SuspectAccounts(community))
    else community == []
  }

  /** The findings the run hands to the ranker: flow, smurfing, layering
      and community, each when selected, in that order. */
  function Alerts(txs: seq<Transaction>, choice: string, community: seq<Suspicion>): seq<Suspicion> {
    When(Runs(choice, "1"), FlowChecker.Check(txs, FlowChecker.SuspectLimit))
    + When(Runs(choice, "2"), SmurfingDetector.Detect(SmurfParams, txs))
    + When(Runs(choice, "3"), LayeringDetector.Detect(LayerParams, txs))
    + community
  }

  lemma SuspectAccountsConcat(a: seq<Suspicion>, b: seq<Suspicion>)
    ensures SuspectAccounts(a + b) == SuspectAccounts(a) + SuspectAccounts(b)
  {
    assert forall s :: s in a + b <==> s in a || s in b;
  }

  lemma FlowAccounts(txs: seq<Transaction>)
    ensures forall a :: a in SuspectAccounts(FlowChecker.Check(txs, FlowChecker.SuspectLimit)) <==> FlowFlags(txs, a)
  {
  }

  lemma SmurfAccounts(txs: seq<Transaction>)
    ensures forall a :: a in SuspectAccounts(SmurfingDetector.Detect(SmurfParams, txs)) <==> SmurfFlags(txs, a)
  {
    var r := SmurfingDetector.Detect(SmurfParams, txs);
    forall a | SmurfFlags(txs, a) ensures a in SuspectAccounts(r) {
      assert SmurfingDetector.DetectOrigin(SmurfParams, txs, a).value in r;
    }
  }

  lemma LayerAccounts(txs: seq<Transaction>)
    ensures forall a :: a in SuspectAccounts(LayeringDetector.Detect(LayerParams, txs)) <==> LayerFlags(txs, a)
  {
    var r := LayeringDetector.Detect(LayerParams, txs);
    LayeringDetector.DetectIsExactlyValidChains(LayerParams, txs);
    forall a | a in SuspectAccounts(r) ensures LayerFlags(txs, a) {
      var s :| s in r && s.account == a;
      assert LayeringDetector.Sound(LayerParams, txs, s);
      assert LayeringDetector.ValidChain(LayerParams, txs, s.evidence);
    }
    forall a | LayerFlags(txs, a) ensures a in SuspectAccounts(r) {
      var c: seq<Transaction> :| LayeringDetector.ValidChain(LayerParams, txs, c)
               && |c| == LayeringDetector.ChainLength(LayerParams) && c[0].origin == a;
      assert LayeringDetector.Finding(c) in r;
    }
  }

  /** The combined findings name exactly the accounts some selected
      detector flags. */
  lemma CombinedAccounts(txs: seq<Transaction>, choice: string,
                         flow: seq<Suspicion>, smurf: seq<Suspicion>,
                         layer: seq<Suspicion>, community: seq<Suspicion>)
    requires flow == When(Runs(choice, "1"), FlowChecker.Check(txs, FlowChecker.SuspectLimit))
    requires smurf == When(Runs(choice, "2"), SmurfingDetector.Detect(SmurfParams, txs))
    requires layer == When(Runs(choice, "3"), LayeringDetector.Detect(LayerParams, txs))
    requires Runs(choice, "4") ==> forall a :: a in SuspectAccounts(community) <==> CommunityDetector.InKCore(txs, a, CommunityDetector.MinDegree)
    requires !Runs(choice, "4") ==> community == []
    ensures forall a :: a in SuspectAccounts(flow + smurf + layer + community) <==> Reported(txs, choice, a)
  {
    FlowAccounts(txs);
    SmurfAccounts(txs);
    LayerAccounts(txs);
    SuspectAccountsConcat(flow, smurf);
    SuspectAccountsConcat(flow + smurf, layer);
    SuspectAccountsConcat(flow + smurf + layer, community);
  }

  /** The Java engine's analysis run without its I/O: an empty batch is an
      error; otherwise the selected detectors run in order and their
      findings are ranked. The ranking names each flagged account exactly
      once, highest score first, and only those accounts; each entry is the
      ranker's merge of the selected detectors' findings. */
  method Analyze(txs: seq<Transaction>, choice: string) returns (r: Result<seq<Suspicion>, AnalysisError>)
    ensures r.Failure? <==> |txs| == 0
    ensures r.Success? ==> forall i, j :: 0 <= i < j < |r.value| ==> r.value[i].score >= r.value[j].score
    ensures r.Success? ==> DistinctAccounts(r.value)
    ensures r.Success? ==> forall a :: a in SuspectAccounts(r.value) <==> Reported(txs, choice, a)
    ensures r.Success? ==> exists community :: CommunityFindings(txs, choice, community)
                                               && r.value == RiskRanker.Rank(Alerts(txs, choice, community))
  {
    if |txs| == 0 {
      return Failure(NoTransactions);
    }
    var flow := When(Runs(choice, "1"), FlowChecker.Check(txs, FlowChecker.SuspectLimit));
    var smurf := When(Runs(choice, "2"), SmurfingDetector.Detect(SmurfParams, txs));
    var layer := When(Runs(choice, "3"), LayeringDetector.Detect(LayerParams, txs));
    var community: seq<Suspicion> := [];
    if Runs(choice, "4") {
      community := CommunityDetector.Detect(txs, CommunityDetector.MinDegree);
      CommunityDetector.KCoreMembers(txs, SuspectAccounts(community), CommunityDetector.MinDegree);
    }
    var alerts := flow + smurf + layer + community;
    CombinedAccounts(txs, choice, flow, smurf, layer, community);
    assert CommunityFindings(txs, choice, community);
    assert alerts == Alerts(txs, choice, community);
    var ranked := RiskRanker.Rank(alerts);
    return Success(ranked);
  }
}
