/**
 Pin-set selection across all mints (src/arbitrage/track_selection.rs:115-186, 242-247).
 */
module TrackSelection {
  import opened Wrappers
  import opened Sorting
  import opened Collections
  import opened TrackPools
  import opened TrackBundles
  import opened TrackBudget
  import opened TrackStats

  /** Histogram of the readiness of all candidates. */
  datatype CandidateCounts = CandidateCounts(executable: nat, quoteReady: nat, warmable: nat, rejected: nat) {
    function Record(readiness: Readiness): CandidateCounts {
      match readiness
      case Executable => this.(executable := executable + 1)
      case QuoteReady => this.(quoteReady := quoteReady + 1)
      case Warmable => this.(warmable := warmable + 1)
      case Rejected => this.(rejected := rejected + 1)
    }
  }

  datatype SelectionResult = SelectionResult(
    selected: seq<SelectedPool>, budgetDisplaced: seq<string>, selectedMints: nat, pairCompleteMints: nat, orphanPools: nat,
    candidateCounts: CandidateCounts)

  // ----- Readiness of all pools -----

  function MintReadiness(w: World, mint: TrackMint): (r: seq<(string, Readiness)>)
    ensures |r| == |mint.pools|
    ensures forall i :: 0 <= i < |r| ==> r[i] == (mint.pools[i].poolAddress, w.Effective(mint, mint.pools[i]))
  {
    seq(|mint.pools|, i requires 0 <= i < |mint.pools| => (mint.pools[i].poolAddress, w.Effective(mint, mint.pools[i])))
  }

  function ReadinessEntries(w: World): TrackMint -> seq<(string, Readiness)> {
    (mint: TrackMint) => MintReadiness(w, mint)
  }

  function AllReadiness(w: World, mints: seq<TrackMint>): ReadinessMap {
    InsertAll(Collect(mints, ReadinessEntries(w)))
  }

  /** How many entries have the readiness. */
  function CountOf(entries: seq<(string, Readiness)>, readiness: Readiness): nat {
    |PositionsOf(entries, readiness)|
  }

  function PositionsOf(entries: seq<(string, Readiness)>, readiness: Readiness): set<nat> {
    set i: nat | i < |entries| && entries[i].1 == readiness
  }

  function CountsOf(entries: seq<(string, Readiness)>): CandidateCounts {
    CandidateCounts(CountOf(entries, Executable), CountOf(entries, QuoteReady), CountOf(entries, Warmable), CountOf(entries, Rejected))
  }

  // ----- The order of bundles -----

  /** Higher priority first, then more recent activity, then the mint's name. */
  predicate BundleLe(a: MintBundle, b: MintBundle) {
    if a.priority.Rank() != b.priority.Rank() then a.priority.Rank() > b.priority.Rank()
    else if a.lastActivityMs != b.lastActivityMs then a.lastActivityMs > b.lastActivityMs
    else LexLe(a.mint, b.mint)
  }

  ghost function BundleList(w: World, ready: ReadinessMap, mint: TrackMint): seq<MintBundle> {
    match BundleOf(w, mint, ready)
    case None => []
    case Some(b) => [b]
  }

  ghost function Bundles(w: World, ready: ReadinessMap): TrackMint -> seq<MintBundle> {
    (mint: TrackMint) => BundleList(w, ready, mint)
  }

  ghost function RankedBundles(w: World, mints: seq<TrackMint>): seq<MintBundle> {
    Sort(Collect(mints, Bundles(w, AllReadiness(w, mints))), BundleLe)
  }

  /** The whole selection as a value. */
  ghost function SelectionOf(w: World, mints: seq<TrackMint>): SelectionResult {
    var taken := Take(RankedBundles(w, mints), w.config.maxPools);
    var dexOf := DexesByAddress(mints);
    SelectionResult(
      taken.selected, Dedup(Sort(taken.displaced, LexLe)), |taken.mints|,
      |CompleteMints(taken.selected, dexOf)|, |Orphans(taken.selected, dexOf)|,
      CountsOf(Collect(mints, ReadinessEntries(w))))
  }

  // ----- The code's loops -----

  lemma CountStep(entries: seq<(string, Readiness)>, e: (string, Readiness))
    ensures CountsOf(entries + [e]) == CountsOf(entries).Record(e.1)
  {
    forall r: Readiness
      ensures CountOf(entries + [e], r) == CountOf(entries, r) + if e.1 == r then 1 else 0
    {
      CountOfAppend(entries, e, r);
    }
    hide CountOf;
  }

  lemma CountOfAppend(entries: seq<(string, Readiness)>, e: (string, Readiness), r: Readiness)
    ensures CountOf(entries + [e], r) == CountOf(entries, r) + if e.1 == r then 1 else 0
  {
    assert PositionsOf(entries + [e], r) == PositionsOf(entries, r) + if e.1 == r then {|entries|} else {};
  }

  lemma InsertStep(entries: seq<(string, Readiness)>, e: (string, Readiness))
    ensures InsertAll(entries + [e]) == InsertAll(entries)[e.0 := e.1]
  {
    assert (entries + [e])[..|entries|] == entries;
  }

  method ClassifyAll(w: World, mints: seq<TrackMint>) returns (ready: ReadinessMap, counts: CandidateCounts)
    ensures ready == AllReadiness(w, mints)
    ensures counts == CountsOf(Collect(mints, ReadinessEntries(w)))
  {
    hide InsertAll, CountsOf, World.Effective;
    ready, counts := map[], CandidateCounts(0, 0, 0, 0);
    ghost var entries: seq<(string, Readiness)> := [];
    NoEntries();
    for k := 0 to |mints|
      invariant entries == Collect(mints[..k], ReadinessEntries(w))
      invariant ready == InsertAll(entries) && counts == CountsOf(entries)
    {
      var mint := mints[k];
      ghost var before := entries;
      for i := 0 to |mint.pools|
        invariant entries == before + MintReadiness(w, mint)[..i]
        invariant ready == InsertAll(entries) && counts == CountsOf(entries)
      {
        var pool := mint.pools[i];
        var readiness := w.Effective(mint, pool);
        CountStep(entries, (pool.poolAddress, readiness));
        InsertStep(entries, (pool.poolAddress, readiness));
        counts := counts.Record(readiness);
        ready := ready[pool.poolAddress := readiness];
        entries := entries + [(pool.poolAddress, readiness)];
      }
      assert mints[..k + 1] == mints[..k] + [mint];
      CollectAppend(mints[..k], mint, ReadinessEntries(w));
    }
    assert mints[..|mints|] == mints;
  }

  lemma NoEntries()
    ensures InsertAll<string, Readiness>([]) == map[] && CountsOf([]) == CandidateCounts(0, 0, 0, 0)
  {
    forall r: Readiness
      ensures CountOf([], r) == 0
    {
      assert PositionsOf([], r) == {};
    }
  }

  method BuildBundles(w: World, mints: seq<TrackMint>, ready: ReadinessMap) returns (bundles: seq<MintBundle>)
    requires WorldOk(w)
    ensures bundles == Collect(mints, Bundles(w, ready))
  {
    hide BundleOf, WorldOk;
    bundles := [];
    for k := 0 to |mints|
      invariant bundles == Collect(mints[..k], Bundles(w, ready))
    {
      var bundle := BuildMintBundle(w, mints[k], ready);
      assert mints[..k + 1] == mints[..k] + [mints[k]];
      CollectAppend(mints[..k], mints[k], Bundles(w, ready));
      if bundle.Some? {
        bundles := bundles + [bundle.value];
      }
    }
    assert mints[..|mints|] == mints;
  }

  method SelectArbTrackPools(w: World, mints: seq<TrackMint>) returns (r: SelectionResult)
    requires WorldOk(w)
    ensures r == SelectionOf(w, mints)
  {
    hide WorldOk, Take, Orphans, CompleteMints, CountsOf, BundleLe;
    var ready, counts := ClassifyAll(w, mints);
    var bundles := BuildBundles(w, mints, ready);
    var taken := TakeLoop(Sort(bundles, BundleLe), w.config.maxPools);
    var complete, orphans := ComputePairCompletenessStats(taken.selected, mints);
    r := SelectionResult(taken.selected, Dedup(Sort(taken.displaced, LexLe)), |taken.mints|, complete, orphans, counts);
  }
}
