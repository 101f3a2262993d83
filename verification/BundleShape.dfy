/**
 What every bundle looks like (src/arbitrage/track_selection.rs:189-220, 249-285, 380-501): when a mint
 gets one, and that it pins two or three distinct pools on at least two DEXes.
 */
module BundleShape {
  import opened Wrappers
  import opened Sorting
  import opened Collections
  import RT = RoundTrip
  import opened TrackPools
  import opened TrackBundles

  // ----- The pinable-pair scan -----

  /** `p` is at least as good as `q`. */
  predicate NotWorse(p: Pair, q: Pair) {
    !q.Beats(p)
  }

  ghost predicate PairOf(ready: ReadinessMap, pools: seq<TrackPool>, p: Pair) {
    p.a in pools && p.b in pools && p.a.dex != p.b.dex && p == MakePair(ready, p.a, p.b)
  }

  lemma NotWorseTransitive(p: Pair, q: Pair, r: Pair)
    requires NotWorse(p, q) && NotWorse(q, r)
    ensures NotWorse(p, r)
  {
  }

  /** Pair (x, y) still lies ahead of position (i, j) of the scan. */
  ghost predicate Ahead(i: nat, j: nat, x: int, y: int) {
    x > i || (x == i && y >= j)
  }

  lemma {:induction false} ScanResult(ready: ReadinessMap, pools: seq<TrackPool>, i: nat, j: nat, best: Option<Pair>)
    requires i <= |pools| && j > i && (best.Some? ==> PairOf(ready, pools, best.value))
    ensures var r := Scan(ready, pools, i, j, best);
            && (r.Some? ==> PairOf(ready, pools, r.value))
            && (best.Some? ==> r.Some? && NotWorse(r.value, best.value))
            && (forall x, y :: 0 <= x < y < |pools| && Ahead(i, j, x, y) && pools[x].dex != pools[y].dex ==>
                  r.Some? && NotWorse(r.value, MakePair(ready, pools[x], pools[y])))
    decreases |pools| - i, if j <= |pools| then |pools| - j else 0
  {
    hide Pair.Beats, MakePair;
    if i < |pools| {
      if j >= |pools| {
        ScanResult(ready, pools, i + 1, i + 2, best);
      } else {
        var next := Consider(ready, best, pools[i], pools[j]);
        ConsiderResult(ready, pools, best, i, j);
        ScanResult(ready, pools, i, j + 1, next);
        var r := Scan(ready, pools, i, j + 1, next);
        if best.Some? {
          NotWorseTransitive(r.value, next.value, best.value);
        }
        if pools[i].dex != pools[j].dex {
          NotWorseTransitive(r.value, next.value, MakePair(ready, pools[i], pools[j]));
        }
      }
    } else if best.Some? {
      NotWorseReflexive(best.value);
    }
  }

  lemma NotWorseReflexive(p: Pair)
    ensures NotWorse(p, p)
  {
  }

  lemma ConsiderResult(ready: ReadinessMap, pools: seq<TrackPool>, best: Option<Pair>, i: nat, j: nat)
    requires i < |pools| && j < |pools| && (best.Some? ==> PairOf(ready, pools, best.value))
    ensures var next := Consider(ready, best, pools[i], pools[j]);
            && (next.Some? ==> PairOf(ready, pools, next.value))
            && (best.Some? ==> next.Some? && NotWorse(next.value, best.value))
            && (pools[i].dex != pools[j].dex ==> next.Some? && NotWorse(next.value, MakePair(ready, pools[i], pools[j])))
  {
  }

  /** The scan finds a pair exactly if two pools are on different DEXes, and no such pair beats it. */
  lemma ScanIsBest(ready: ReadinessMap, pools: seq<TrackPool>)
    ensures var r := Scan(ready, pools, 0, 1, None);
            && (r.Some? <==> exists p, q :: p in pools && q in pools && p.dex != q.dex)
            && (r.Some? ==> PairOf(ready, pools, r.value))
            && (forall x, y :: 0 <= x < y < |pools| && pools[x].dex != pools[y].dex ==>
                  r.Some? && NotWorse(r.value, MakePair(ready, pools[x], pools[y])))
  {
    hide NotWorse, MakePair, Scan;
    ScanResult(ready, pools, 0, 1, None);
    if p, q :| p in pools && q in pools && p.dex != q.dex {
      var x :| 0 <= x < |pools| && pools[x] == p;
      var y :| 0 <= y < |pools| && pools[y] == q;
      if x < y {
        assert Ahead(0, 1, x, y);
      } else {
        assert Ahead(0, 1, y, x);
      }
    }
  }

  // ----- When a mint gets a bundle -----

  lemma EligiblePinable(w: World, mint: TrackMint, ready: ReadinessMap)
    ensures forall p :: p in PinablePools(w, Eligible(mint, ready), ready) <==> p in Eligible(mint, ready)
  {
    hide World.IsWarmable;
    var eligible := Eligible(mint, ready);
    var pinable := Filter(eligible, (p: TrackPool) => Pinable(w, ready, p));
    SortMembers(pinable, PoolOrder(ready));
    forall p | p in eligible
      ensures Pinable(w, ready, p)
    {
      assert !ReadinessOf(ready, p).Rejected?;
    }
  }

  lemma TwoDexes(pools: seq<TrackPool>)
    ensures |DistinctDexes(pools)| >= 2 <==> exists p, q :: p in pools && q in pools && p.dex != q.dex
  {
    var dexes := DistinctDexes(pools);
    if |dexes| >= 2 {
      var x, y := RT.TwoMembers(dexes);
      var p :| p in pools && p.dex == x;
      var q :| q in pools && q.dex == y;
    }
    if p, q :| p in pools && q in pools && p.dex != q.dex {
      assert p.dex in dexes && q.dex in dexes;
      if |dexes| < 2 {
        RT.SmallSet(dexes, p.dex, q.dex);
      }
    }
  }

  /** Whatever the readiness, a mint gets a bundle exactly if its eligible pools span two DEXes. */
  lemma BundleIffTwoDexes(w: World, mint: TrackMint, ready: ReadinessMap)
    ensures BundleOf(w, mint, ready).Some?
            <==> exists p, q :: p in Eligible(mint, ready) && q in Eligible(mint, ready) && p.dex != q.dex
  {
    hide PairBundle, FromSignal, FromRoundTrip, Scan, DistinctDexes, Eligible;
    var eligible := Eligible(mint, ready);
    TwoDexes(eligible);
    EligiblePinable(w, mint, ready);
    ScanIsBest(ready, PinablePools(w, eligible, ready));
  }

  // ----- What a bundle pins -----

  function Addresses(pools: seq<TrackPool>): seq<string> {
    Collect(pools, (p: TrackPool) => [p.poolAddress])
  }

  lemma {:induction false} AddressesAt(pools: seq<TrackPool>)
    ensures |Addresses(pools)| == |pools|
    ensures forall i :: 0 <= i < |pools| ==> Addresses(pools)[i] == pools[i].poolAddress
  {
    if pools != [] {
      AddressesAt(pools[..|pools| - 1]);
    }
  }

  /** The pool input of a mint is well formed: consistent pools with distinct addresses. */
  ghost predicate MintOk(mint: TrackMint) {
    NoDuplicates(Addresses(mint.pools)) && forall p :: p in mint.pools ==> Consistent(p)
  }

  ghost predicate DexesMatch(mint: TrackMint) {
    forall p :: p in mint.pools ==> DexMatches(p)
  }

  lemma SameAddressSamePool(pools: seq<TrackPool>, p: TrackPool, q: TrackPool)
    requires NoDuplicates(Addresses(pools)) && p in pools && q in pools && p.poolAddress == q.poolAddress
    ensures p == q
  {
    AddressesAt(pools);
    var i :| 0 <= i < |pools| && pools[i] == p;
    var j :| 0 <= j < |pools| && pools[j] == q;
    if i < j {
      NoDuplicatesDistinct(Addresses(pools), i, j);
    } else if j < i {
      NoDuplicatesDistinct(Addresses(pools), j, i);
    }
  }

  ghost predicate PinsPool(mint: TrackMint, sp: SelectedPool, p: TrackPool) {
    p in mint.pools && p.known && IsTrackDex(p.dex) && sp.pool == p.poolAddress && sp.mint == mint.mint
  }

  /** Two or three distinct pools of the mint, and two of them on different DEXes. */
  ghost predicate BundleOk(mint: TrackMint, b: MintBundle) {
    && b.mint == mint.mint && b.lastActivityMs == mint.lastActivityMs
    && 2 <= |b.pools| <= 3
    && (forall i, j :: 0 <= i < j < |b.pools| ==> b.pools[i].pool != b.pools[j].pool)
    && (forall sp :: sp in b.pools ==> sp.mint == mint.mint && exists p :: PinsPool(mint, sp, p))
    && (exists sp, sq, p, q :: sp in b.pools && sq in b.pools && PinsPool(mint, sp, p) && PinsPool(mint, sq, q) && p.dex != q.dex)
  }

  /** The readiness map says of every pool of the mint what classification says. */
  ghost predicate Reflects(w: World, mint: TrackMint, ready: ReadinessMap) {
    forall p :: p in mint.pools ==> ReadinessOf(ready, p) == w.Effective(mint, p)
  }

  lemma EligibleIsSupported(w: World, mint: TrackMint, ready: ReadinessMap)
    requires DexesMatch(mint) && Reflects(w, mint, ready)
    ensures forall p :: p in Eligible(mint, ready) <==> p in mint.pools && p.known && IsTrackDex(p.dex)
  {
    hide World.Effective;
    forall p | p in mint.pools
      ensures ReadinessOf(ready, p).Rejected? <==> !(p.known && IsTrackDex(p.dex))
    {
      RejectedIffUnsupported(w, mint, p);
    }
  }

  /** Main result: a mint yields a bundle exactly if it has known pools on two supported DEXes. */
  lemma BundleIffSupported(w: World, mint: TrackMint, ready: ReadinessMap)
    requires DexesMatch(mint) && Reflects(w, mint, ready)
    ensures BundleOf(w, mint, ready).Some?
            <==> exists p, q :: p in mint.pools && q in mint.pools && p.known && q.known
                  && IsTrackDex(p.dex) && IsTrackDex(q.dex) && p.dex != q.dex
  {
    hide BundleOf, DexesMatch, Reflects, Eligible;
    BundleIffTwoDexes(w, mint, ready);
    EligibleIsSupported(w, mint, ready);
  }

  lemma PairBundleOk(w: World, mint: TrackMint, buy: TrackPool, sell: TrackPool, priority: Readiness, least: Readiness,
                     reason: ActiveReason, eligible: seq<TrackPool>, ready: ReadinessMap)
    requires NoDuplicates(Addresses(mint.pools))
    requires forall p :: p in eligible ==> p in mint.pools && p.known && IsTrackDex(p.dex)
    requires buy in eligible && sell in eligible && buy.dex != sell.dex
    ensures BundleOk(mint, PairBundle(w, mint, buy, sell, priority, least, reason, eligible, ready))
  {
    hide World.IsWarmable, IsTrackDex, NoDuplicates, Addresses, ThirdCandidates, ReadinessOf, BundleOk, Sort;
    var pair := [Select(mint, buy, least, reason, ready), Select(mint, sell, least, reason, ready)];
    var all := WithThird(w, mint, pair, eligible, ready);
    if buy.poolAddress == sell.poolAddress {
      SameAddressSamePool(mint.pools, buy, sell);
    }
    ThirdIsNew(w, mint, pair, eligible, ready);
    assert all[0] == pair[0] && all[1] == pair[1];
    forall sp | sp in all
      ensures sp.mint == mint.mint && exists p :: PinsPool(mint, sp, p)
    {
      if sp == pair[0] {
        assert PinsPool(mint, sp, buy);
      } else if sp == pair[1] {
        assert PinsPool(mint, sp, sell);
      }
    }
    assert PinsPool(mint, pair[0], buy) && PinsPool(mint, pair[1], sell);
    SortedBundleOk(mint, priority, all, pair[0], pair[1], buy, sell);
  }

  /** A third pool, if any, is another pool of the mint. */
  lemma ThirdIsNew(w: World, mint: TrackMint, pair: seq<SelectedPool>, eligible: seq<TrackPool>, ready: ReadinessMap)
    requires |pair| == 2 && pair[0].pool != pair[1].pool
    requires forall p :: p in eligible ==> p in mint.pools && p.known && IsTrackDex(p.dex)
    ensures var all := WithThird(w, mint, pair, eligible, ready);
            && 2 <= |all| <= 3 && all[..2] == pair
            && (forall i, j :: 0 <= i < j < |all| ==> all[i].pool != all[j].pool)
            && (|all| == 3 ==> all[2].mint == mint.mint && exists p :: PinsPool(mint, all[2], p))
  {
    hide Pinable, PoolOrder, IsTrackDex;
    var candidates := ThirdCandidates(w, pair, eligible, ready);
    ThirdMembers(w, pair, eligible, ready);
    if |pair| < w.config.maxPoolsPerMint && candidates != [] {
      var third := candidates[0];
      assert third in candidates;
      var all := WithThird(w, mint, pair, eligible, ready);
      assert all[2].pool == third.poolAddress;
      assert PinsPool(mint, all[2], third);
      assert pair[0] in pair && pair[1] in pair;
    }
  }

  lemma ThirdMembers(w: World, pools: seq<SelectedPool>, eligible: seq<TrackPool>, ready: ReadinessMap)
    ensures forall p :: p in ThirdCandidates(w, pools, eligible, ready) ==>
              p in eligible && forall sp :: sp in pools ==> sp.pool != p.poolAddress
  {
    hide Pinable, UsedDexes;
    var kept := Filter(eligible, Spare(w, ready, UsedAddresses(pools), UsedDexes(pools, eligible)));
    SortMembers(kept, PoolOrder(ready));
    forall p, sp | p in kept && sp in pools
      ensures sp.pool != p.poolAddress
    {
      assert sp.pool in UsedAddresses(pools);
    }
  }

  /** Sorting by address keeps all of it. */
  lemma SortedBundleOk(mint: TrackMint, priority: Readiness, all: seq<SelectedPool>,
                       sp: SelectedPool, sq: SelectedPool, p: TrackPool, q: TrackPool)
    requires 2 <= |all| <= 3 && sp in all && sq in all && PinsPool(mint, sp, p) && PinsPool(mint, sq, q) && p.dex != q.dex
    requires forall i, j :: 0 <= i < j < |all| ==> all[i].pool != all[j].pool
    requires forall x :: x in all ==> x.mint == mint.mint && exists p :: PinsPool(mint, x, p)
    ensures BundleOk(mint, MintBundle(mint.mint, priority, mint.lastActivityMs, Sort(all, AddressLe)))
  {
    hide PinsPool, Sort, AddressLe;
    var sorted := Sort(all, AddressLe);
    SortMembers(all, AddressLe);
    DistinctKeysPermuted(all, sorted, (x: SelectedPool) => x.pool);
    assert sp in sorted && sq in sorted;
  }

  /** Main result: every bundle pins two or three distinct pools of its mint, on at least two DEXes. */
  lemma EveryBundleOk(w: World, mint: TrackMint, ready: ReadinessMap)
    requires MintOk(mint) && Reflects(w, mint, ready) && BundleOf(w, mint, ready).Some?
    ensures BundleOk(mint, BundleOf(w, mint, ready).value)
  {
    hide PairBundle, Scan, DistinctDexes, BundleOk, Eligible, PinablePools, FromRoundTrip;
    var eligible := Eligible(mint, ready);
    EligibleIsSupported(w, mint, ready);
    if FromSignal(w, mint, eligible, ready).Some? {
      var buy, sell := Find(eligible, mint.signal.value.0).value, Find(eligible, mint.signal.value.1).value;
      PairBundleOk(w, mint, buy, sell, Executable, Executable, TradeSignal, eligible, ready);
    } else if FromRoundTrip(w, mint, eligible, ready).Some? {
      RoundTripBundleOk(w, mint, eligible, ready);
    } else {
      EligiblePinable(w, mint, ready);
      ScanIsBest(ready, PinablePools(w, eligible, ready));
      var best := Scan(ready, PinablePools(w, eligible, ready), 0, 1, None).value;
      PairBundleOk(w, mint, best.a, best.b, best.priority, QuoteReady, MultiDex, eligible, ready);
    }
  }

  lemma RoundTripBundleOk(w: World, mint: TrackMint, eligible: seq<TrackPool>, ready: ReadinessMap)
    requires MintOk(mint) && FromRoundTrip(w, mint, eligible, ready).Some?
    requires forall p :: p in eligible ==> p in mint.pools && p.known && IsTrackDex(p.dex)
    ensures BundleOk(mint, FromRoundTrip(w, mint, eligible, ready).value)
  {
    hide PairBundle, BundleOk, IsTrackDex, RT.Task.BuyOk, RT.Task.SellQuote, RT.Task.LabelOk;
    var t := RoundTripTask(w, eligible);
    var (a, b) := RT.BestPair(t).value;
    RT.BestIsUsable(t, a, b);
    RT.DifferentLabels(t, a, b);
    var pa, pb := eligible[a], eligible[b];
    assert pa in eligible && pb in eligible;
    var buy, sell := Find(eligible, pa.poolAddress).value, Find(eligible, pb.poolAddress).value;
    SameAddressSamePool(mint.pools, buy, pa);
    SameAddressSamePool(mint.pools, sell, pb);
    PairBundleOk(w, mint, buy, sell, QuoteReady, QuoteReady, MultiDex, eligible, ready);
  }
}
