/**
 The pools pinned for one mint (src/arbitrage/track_selection.rs:249-501): the trade-signal pair, else
 the best round trip, else the best pinable cross-DEX pair, each with an optional third pool.
 */
module TrackBundles {
  import opened Wrappers
  import opened Sorting
  import opened Collections
  import opened PoolQuotes
  import RT = RoundTrip
  import opened TrackPools

  datatype ActiveReason = TradeSignal | MultiDex

  datatype SelectedPool = SelectedPool(mint: string, pool: string, readiness: Readiness, reason: ActiveReason)

  datatype MintBundle = MintBundle(mint: string, priority: Readiness, lastActivityMs: nat, pools: seq<SelectedPool>)

  type ReadinessMap = map<string, Readiness>

  function ReadinessOf(ready: ReadinessMap, pool: TrackPool): Readiness {
    if pool.poolAddress in ready then ready[pool.poolAddress] else Rejected
  }

  // ----- Filters and orders -----

  function Filter<T(!new)>(s: seq<T>, keep: T -> bool): (r: seq<T>)
    ensures forall x :: x in r <==> x in s && keep(x)
    ensures |r| <= |s|
  {
    if s == [] then []
    else
      assert s == s[..|s| - 1] + [s[|s| - 1]];
      Filter(s[..|s| - 1], keep) + if keep(s[|s| - 1]) then [s[|s| - 1]] else []
  }

  function Eligible(mint: TrackMint, ready: ReadinessMap): seq<TrackPool> {
    Filter(mint.pools, (p: TrackPool) => !ReadinessOf(ready, p).Rejected?)
  }

  /** The first pool with the address. */
  function Find(pools: seq<TrackPool>, address: string): (r: Option<TrackPool>)
    ensures r.Some? ==> r.value in pools && r.value.poolAddress == address
    ensures r.None? ==> forall p :: p in pools ==> p.poolAddress != address
  {
    if pools == [] then None
    else if pools[0].poolAddress == address then Some(pools[0])
    else Find(pools[1..], address)
  }

  predicate Pinable(w: World, ready: ReadinessMap, pool: TrackPool) {
    ReadinessOf(ready, pool).Rank() >= Warmable.Rank() || w.IsWarmable(pool)
  }

  /** Readier first, then by DEX, then by address. */
  predicate PoolLe(ready: ReadinessMap, a: TrackPool, b: TrackPool) {
    var ra, rb := ReadinessOf(ready, a).Rank(), ReadinessOf(ready, b).Rank();
    if ra != rb then ra > rb
    else if a.dex != b.dex then LexLe(a.dex, b.dex)
    else LexLe(a.poolAddress, b.poolAddress)
  }

  function PoolOrder(ready: ReadinessMap): (TrackPool, TrackPool) -> bool {
    (a, b) => PoolLe(ready, a, b)
  }

  predicate AddressLe(a: SelectedPool, b: SelectedPool) {
    LexLe(a.pool, b.pool)
  }

  function DistinctDexes(pools: seq<TrackPool>): set<string> {
    set p | p in pools :: p.dex
  }

  // ----- Third pool -----

  function Select(mint: TrackMint, pool: TrackPool, least: Readiness, reason: ActiveReason, ready: ReadinessMap): SelectedPool {
    SelectedPool(mint.mint, pool.poolAddress, ReadinessOf(ready, pool).Max(least), reason)
  }

  /** Pools on DEXes the selected ones do not use yet, best first. */
  function ThirdCandidates(w: World, pools: seq<SelectedPool>, eligible: seq<TrackPool>, ready: ReadinessMap): seq<TrackPool> {
    Sort(Filter(eligible, Spare(w, ready, UsedAddresses(pools), UsedDexes(pools, eligible))), PoolOrder(ready))
  }

  function UsedAddresses(pools: seq<SelectedPool>): set<string> {
    set p | p in pools :: p.pool
  }

  function UsedDexes(pools: seq<SelectedPool>, eligible: seq<TrackPool>): set<string> {
    set p | p in pools && Find(eligible, p.pool).Some? :: Find(eligible, p.pool).value.dex
  }

  function Spare(w: World, ready: ReadinessMap, addresses: set<string>, dexes: set<string>): TrackPool -> bool {
    (p: TrackPool) => p.poolAddress !in addresses && p.dex !in dexes && Pinable(w, ready, p)
  }

  function WithThird(w: World, mint: TrackMint, pools: seq<SelectedPool>, eligible: seq<TrackPool>, ready: ReadinessMap)
    : seq<SelectedPool>
  {
    if |pools| >= w.config.maxPoolsPerMint then pools
    else
      var candidates := ThirdCandidates(w, pools, eligible, ready);
      if candidates == [] then pools
      else pools + [Select(mint, candidates[0], ReadinessOf(ready, candidates[0]), MultiDex, ready)]
  }

  /** The bundle around a chosen pair. */
  function PairBundle(w: World, mint: TrackMint, buy: TrackPool, sell: TrackPool, priority: Readiness, least: Readiness,
                      reason: ActiveReason, eligible: seq<TrackPool>, ready: ReadinessMap): MintBundle
  {
    var pair := [Select(mint, buy, least, reason, ready), Select(mint, sell, least, reason, ready)];
    MintBundle(mint.mint, priority, mint.lastActivityMs, Sort(WithThird(w, mint, pair, eligible, ready), AddressLe))
  }

  // ----- Three ways to a pair -----

  function FromSignal(w: World, mint: TrackMint, eligible: seq<TrackPool>, ready: ReadinessMap): Option<MintBundle> {
    if mint.signal.None? then None
    else
      var buy :- Find(eligible, mint.signal.value.0);
      var sell :- Find(eligible, mint.signal.value.1);
      if buy.dex == sell.dex then None
      else Some(PairBundle(w, mint, buy, sell, Executable, Executable, TradeSignal, eligible, ready))
  }

  function AsCandidate(p: TrackPool): RT.Candidate {
    RT.Candidate(p.quotePool, p.vault, p.bins, p.dex)
  }

  function AsCandidates(pools: seq<TrackPool>): (r: seq<RT.Candidate>)
    ensures |r| == |pools| && forall i :: 0 <= i < |r| ==> r[i] == AsCandidate(pools[i])
  {
    seq(|pools|, i requires 0 <= i < |pools| => AsCandidate(pools[i]))
  }

  function RoundTripTask(w: World, eligible: seq<TrackPool>): RT.Task {
    RT.Task(w.env, AsCandidates(eligible), map[], w.config.probe, w.config.freshness, w.now, (_: nat) => w.now, (_: nat, _: nat) => w.now)
  }

  function FromAddresses(w: World, mint: TrackMint, buyAddress: string, sellAddress: string, eligible: seq<TrackPool>,
                         ready: ReadinessMap): Option<MintBundle>
  {
    var buy :- Find(eligible, buyAddress);
    var sell :- Find(eligible, sellAddress);
    Some(PairBundle(w, mint, buy, sell, QuoteReady, QuoteReady, MultiDex, eligible, ready))
  }

  ghost function FromRoundTrip(w: World, mint: TrackMint, eligible: seq<TrackPool>, ready: ReadinessMap): Option<MintBundle> {
    var best := RT.BestPair(RoundTripTask(w, eligible));
    if best.None? then None
    else
      assert RT.Best(RoundTripTask(w, eligible), best);
      FromAddresses(w, mint, eligible[best.value.0].quotePool.poolAddress, eligible[best.value.1].quotePool.poolAddress,
                    eligible, ready)
  }

  /** A pair of pools and the lesser of their readiness. */
  datatype Pair = Pair(a: TrackPool, b: TrackPool, priority: Readiness) {
    function Activity(): nat {
      if a.lastActivityMs >= b.lastActivityMs then a.lastActivityMs else b.lastActivityMs
    }

    /** Strictly better: readier, or as ready and more recently active. */
    predicate Beats(other: Pair) {
      if priority != other.priority then priority.Rank() > other.priority.Rank() else Activity() > other.Activity()
    }
  }

  function MakePair(ready: ReadinessMap, a: TrackPool, b: TrackPool): Pair {
    Pair(a, b, ReadinessOf(ready, a).Min(ReadinessOf(ready, b)))
  }

  function Consider(ready: ReadinessMap, best: Option<Pair>, a: TrackPool, b: TrackPool): Option<Pair> {
    if a.dex == b.dex then best
    else if best.None? || MakePair(ready, a, b).Beats(best.value) then Some(MakePair(ready, a, b))
    else best
  }

  /** The rest of the scan over all pairs i < j, from position (i, j) on. */
  function Scan(ready: ReadinessMap, pools: seq<TrackPool>, i: nat, j: nat, best: Option<Pair>): Option<Pair>
    requires i <= |pools|
    decreases |pools| - i, if j <= |pools| then |pools| - j else 0
  {
    if i == |pools| then best
    else if j >= |pools| then Scan(ready, pools, i + 1, i + 2, best)
    else Scan(ready, pools, i, j + 1, Consider(ready, best, pools[i], pools[j]))
  }

  function PinablePools(w: World, eligible: seq<TrackPool>, ready: ReadinessMap): seq<TrackPool> {
    Sort(Filter(eligible, (p: TrackPool) => Pinable(w, ready, p)), PoolOrder(ready))
  }

  /** The best-pair scan as the code runs it. */
  method ScanPairs(ready: ReadinessMap, pools: seq<TrackPool>) returns (best: Option<Pair>)
    ensures best == Scan(ready, pools, 0, 1, None)
  {
    hide Consider;
    best := None;
    for i := 0 to |pools|
      invariant Scan(ready, pools, i, i + 1, best) == Scan(ready, pools, 0, 1, None)
    {
      for j := i + 1 to |pools|
        invariant Scan(ready, pools, i, j, best) == Scan(ready, pools, 0, 1, None)
      {
        best := Consider(ready, best, pools[i], pools[j]);
      }
    }
  }

  function FromPinable(w: World, mint: TrackMint, eligible: seq<TrackPool>, ready: ReadinessMap): Option<MintBundle> {
    var best :- Scan(ready, PinablePools(w, eligible, ready), 0, 1, None);
    Some(PairBundle(w, mint, best.a, best.b, best.priority, QuoteReady, MultiDex, eligible, ready))
  }

  ghost function BundleOf(w: World, mint: TrackMint, ready: ReadinessMap): Option<MintBundle> {
    var eligible := Eligible(mint, ready);
    if |DistinctDexes(eligible)| < 2 then None
    else
      var signal := FromSignal(w, mint, eligible, ready);
      if signal.Some? then signal
      else
        var trip := FromRoundTrip(w, mint, eligible, ready);
        if trip.Some? then trip else FromPinable(w, mint, eligible, ready)
  }

  ghost predicate WorldOk(w: World) {
    EnvOk(w.env) && w.config.probe < RT.I64_LIMIT
  }

  lemma TaskValid(w: World, eligible: seq<TrackPool>)
    requires WorldOk(w)
    ensures RoundTripTask(w, eligible).Valid()
  {
  }

  method BuildMintBundle(w: World, mint: TrackMint, ready: ReadinessMap) returns (bundle: Option<MintBundle>)
    requires WorldOk(w)
    ensures bundle == BundleOf(w, mint, ready)
  {
    hide Scan, PairBundle, PinablePools, RT.BestBefore, RT.Task.Usable;
    var eligible := Eligible(mint, ready);
    if |DistinctDexes(eligible)| < 2 {
      return None;
    }
    var signal := FromSignal(w, mint, eligible, ready);
    if signal.Some? {
      return signal;
    }
    var task := RoundTripTask(w, eligible);
    TaskValid(w, eligible);
    var selection := RT.SelectRoundTripPools(task);
    SelectionIsBest(w, mint, eligible, ready, selection);
    if selection.Ok? {
      var trip := FromAddresses(w, mint, selection.selection.buyPoolAddress, selection.selection.sellPoolAddress, eligible, ready);
      if trip.Some? {
        return trip;
      }
    }
    var best := ScanPairs(ready, PinablePools(w, eligible, ready));
    if best.None? {
      return None;
    }
    return Some(PairBundle(w, mint, best.value.a, best.value.b, best.value.priority, QuoteReady, MultiDex, eligible, ready));
  }

  /** The selector's answer is the brute-force pair, whichever way it is computed. */
  lemma SelectionIsBest(w: World, mint: TrackMint, eligible: seq<TrackPool>, ready: ReadinessMap, r: RT.SelectResult)
    requires var t := RoundTripTask(w, eligible);
             && (r.Ok? ==> exists a: nat, b: nat :: RT.Best(t, Some((a, b))) && RT.IsSelection(t, r.selection, a, b))
             && (r.Err? ==> RT.Best(t, None))
    ensures FromRoundTrip(w, mint, eligible, ready)
            == if r.Ok? then FromAddresses(w, mint, r.selection.buyPoolAddress, r.selection.sellPoolAddress, eligible, ready)
               else None
  {
    hide FromAddresses, RT.BestBefore, RT.Task.PairOk;
    var t := RoundTripTask(w, eligible);
    if r.Ok? {
      var a: nat, b: nat :| RT.Best(t, Some((a, b))) && RT.IsSelection(t, r.selection, a, b);
      RT.BestIsUnique(t, Some((a, b)), RT.BestPair(t));
    } else {
      RT.BestIsUnique(t, None, RT.BestPair(t));
    }
  }
}
