/**
 What pin-set selection guarantees for mints with distinct names and pools with distinct addresses
 (src/arbitrage/track_selection.rs:1-3, 115-220).
 */
module PinSet {
  import opened Wrappers
  import opened Sorting
  import opened Collections
  import opened TrackPools
  import opened TrackBundles
  import opened TrackBudget
  import opened TrackStats
  import opened TrackSelection
  import opened BundleShape

  function PoolAddresses(): TrackMint -> seq<string> {
    (mint: TrackMint) => Addresses(mint.pools)
  }

  ghost predicate DistinctMints(mints: seq<TrackMint>) {
    forall i, j :: 0 <= i < j < |mints| ==> mints[i].mint != mints[j].mint
  }

  ghost predicate UniquePools(mints: seq<TrackMint>) {
    NoDuplicates(Collect(mints, PoolAddresses()))
  }

  // ----- Maps keyed by pool address -----

  ghost predicate Keyed<V(!new)>(f: TrackMint -> seq<(string, V)>) {
    forall m :: |f(m)| == |m.pools| && forall i :: 0 <= i < |m.pools| ==> f(m)[i].0 == m.pools[i].poolAddress
  }

  lemma {:induction false} KeysAlign<V(!new)>(mints: seq<TrackMint>, f: TrackMint -> seq<(string, V)>)
    requires Keyed(f)
    ensures var entries, addresses := Collect(mints, f), Collect(mints, PoolAddresses());
            |entries| == |addresses| && forall i :: 0 <= i < |entries| ==> entries[i].0 == addresses[i]
  {
    if mints != [] {
      KeysAlign(mints[..|mints| - 1], f);
      AddressesAt(mints[|mints| - 1].pools);
    }
  }

  lemma KeysDistinct<V(!new)>(mints: seq<TrackMint>, f: TrackMint -> seq<(string, V)>)
    requires Keyed(f) && UniquePools(mints)
    ensures DistinctKeys(Collect(mints, f))
  {
    hide NoDuplicates, Collect;
    KeysAlign(mints, f);
    var entries, addresses := Collect(mints, f), Collect(mints, PoolAddresses());
    forall i, j | 0 <= i < j < |entries|
      ensures entries[i].0 != entries[j].0
    {
      NoDuplicatesDistinct(addresses, i, j);
    }
  }

  lemma MapIgnoresOrder<V(!new)>(s: seq<TrackMint>, t: seq<TrackMint>, f: TrackMint -> seq<(string, V)>)
    requires Keyed(f) && UniquePools(s) && UniquePools(t) && multiset(s) == multiset(t)
    ensures InsertAll(Collect(s, f)) == InsertAll(Collect(t, f))
  {
    hide DistinctKeys, InsertAll, Collect, UniquePools, Keyed;
    KeysDistinct(s, f);
    KeysDistinct(t, f);
    CollectPermuted(s, t, f);
    InsertAllPermuted(Collect(s, f), Collect(t, f));
  }

  /** Every pool of the input is found under its own address. */
  lemma EntryFound<V(!new)>(mints: seq<TrackMint>, f: TrackMint -> seq<(string, V)>, mint: TrackMint, i: nat)
    requires Keyed(f) && UniquePools(mints) && mint in mints && i < |mint.pools|
    ensures var all := InsertAll(Collect(mints, f));
            var address := mint.pools[i].poolAddress;
            address in all && all[address] == f(mint)[i].1
  {
    hide InsertAll, Collect, UniquePools;
    KeysDistinct(mints, f);
    InsertedStays(Collect(mints, f));
    CollectedFrom(mints, f, mint, f(mint)[i]);
  }

  // ----- Independence of the input order -----

  lemma {:induction false} CountOfConcat(s: seq<(string, Readiness)>, t: seq<(string, Readiness)>, r: Readiness)
    ensures CountOf(s + t, r) == CountOf(s, r) + CountOf(t, r)
  {
    hide CountOf;
    if t == [] {
      assert s + t == s;
      NoneCounted(r);
    } else {
      var init, last := t[..|t| - 1], t[|t| - 1];
      assert t == init + [last] && s + t == (s + init) + [last];
      CountOfConcat(s, init, r);
      CountOfAppend(s + init, last, r);
      CountOfAppend(init, last, r);
    }
  }

  lemma NoneCounted(r: Readiness)
    ensures CountOf([], r) == 0
  {
    assert PositionsOf([], r) == {};
  }

  lemma {:induction false} CountOfPermuted(s: seq<(string, Readiness)>, t: seq<(string, Readiness)>, r: Readiness)
    requires multiset(s) == multiset(t)
    ensures CountOf(s, r) == CountOf(t, r)
    decreases |s|
  {
    hide CountOf;
    if s == [] {
      assert |multiset(t)| == 0;
    } else {
      var init, x := s[..|s| - 1], s[|s| - 1];
      assert s == init + [x];
      assert x in multiset(t);
      var k :| 0 <= k < |t| && t[k] == x;
      var before, after := t[..k], t[k + 1..];
      assert t == before + [x] + after;
      assert multiset(before + after) == multiset(t) - multiset{x};
      assert multiset(init) == multiset(s) - multiset{x};
      CountOfPermuted(init, before + after, r);
      CountOfConcat(before + [x], after, r);
      CountOfConcat(before, after, r);
      CountOfAppend(before, x, r);
      CountOfAppend(init, x, r);
    }
  }

  lemma BundleOrder()
    ensures TotalPreorder(BundleLe)
    ensures forall a, b :: BundleLe(a, b) && BundleLe(b, a) ==> a.mint == b.mint
  {
    hide LexLe;
    LexIsTotalPreorder();
  }

  lemma SameNameSameMint(mints: seq<TrackMint>, m: TrackMint, n: TrackMint)
    requires DistinctMints(mints) && m in mints && n in mints && m.mint == n.mint
    ensures m == n
  {
    var i :| 0 <= i < |mints| && mints[i] == m;
    var j :| 0 <= j < |mints| && mints[j] == n;
  }

  /** Every bundle is its mint's bundle. */
  lemma CollectedBundles(w: World, mints: seq<TrackMint>, ready: ReadinessMap)
    ensures forall b :: b in Collect(mints, Bundles(w, ready)) <==> exists m :: m in mints && BundleOf(w, m, ready) == Some(b)
    ensures forall m, b :: BundleOf(w, m, ready) == Some(b) ==> b.mint == m.mint
  {
    hide Collect, Eligible, DistinctDexes, Scan, PinablePools;
    CollectMembers(mints, Bundles(w, ready));
    BundleNamed(w, ready);
  }

  lemma BundleNamed(w: World, ready: ReadinessMap)
    ensures forall m, b :: BundleOf(w, m, ready) == Some(b) ==> b.mint == m.mint
  {
    hide Eligible, DistinctDexes, Scan, PinablePools, Find;
  }

  lemma RankingIgnoresOrder(w: World, s: seq<TrackMint>, t: seq<TrackMint>, ready: ReadinessMap)
    requires multiset(s) == multiset(t) && DistinctMints(s)
    ensures Sort(Collect(s, Bundles(w, ready)), BundleLe) == Sort(Collect(t, Bundles(w, ready)), BundleLe)
  {
    hide Collect, BundleOf, BundleLe, DistinctMints;
    CollectPermuted(s, t, Bundles(w, ready));
    BundleOrder();
    CollectedBundles(w, s, ready);
    var bundles := Collect(s, Bundles(w, ready));
    forall a, b | a in bundles && b in bundles && BundleLe(a, b) && BundleLe(b, a)
      ensures a == b
    {
      var m :| m in s && BundleOf(w, m, ready) == Some(a);
      var n :| n in s && BundleOf(w, n, ready) == Some(b);
      SameNameSameMint(s, m, n);
    }
    SortOfPermutation(bundles, Collect(t, Bundles(w, ready)), BundleLe);
  }

  lemma UniquePoolsPermuted(s: seq<TrackMint>, t: seq<TrackMint>)
    requires multiset(s) == multiset(t) && UniquePools(s)
    ensures UniquePools(t)
  {
    CollectPermuted(s, t, PoolAddresses());
  }

  /** Main result: permuting the mints changes nothing, neither the pins and their order nor any counter. */
  lemma SelectionIgnoresOrder(w: World, s: seq<TrackMint>, t: seq<TrackMint>)
    requires multiset(s) == multiset(t) && DistinctMints(s) && UniquePools(s)
    ensures SelectionOf(w, s) == SelectionOf(w, t)
  {
    hide UniquePools, DistinctMints, Take, Orphans, CompleteMints, CountOf, BundleLe, BundleOf, InsertAll, World.Effective;
    UniquePoolsPermuted(s, t);
    MapIgnoresOrder(s, t, ReadinessEntries(w));
    MapIgnoresOrder(s, t, DexEntries());
    RankingIgnoresOrder(w, s, t, AllReadiness(w, s));
    var es, et := Collect(s, ReadinessEntries(w)), Collect(t, ReadinessEntries(w));
    CollectPermuted(s, t, ReadinessEntries(w));
    CountOfPermuted(es, et, Executable);
    CountOfPermuted(es, et, QuoteReady);
    CountOfPermuted(es, et, Warmable);
    CountOfPermuted(es, et, Rejected);
  }

  // ----- The greedy guarantees -----

  /** Distinct mints, unique pools, and every pool's quoting half describing that pool. */
  ghost predicate WellFormed(mints: seq<TrackMint>) {
    DistinctMints(mints) && UniquePools(mints) && forall m, p :: m in mints && p in m.pools ==> Consistent(p)
  }

  lemma MintsAreOk(mints: seq<TrackMint>, mint: TrackMint)
    requires WellFormed(mints) && mint in mints
    ensures MintOk(mint)
  {
    hide NoDuplicates, Consistent;
    var i :| 0 <= i < |mints| && mints[i] == mint;
    CollectedPart(mints, PoolAddresses(), i);
  }

  lemma ReadinessReflects(w: World, mints: seq<TrackMint>, mint: TrackMint)
    requires UniquePools(mints) && mint in mints
    ensures Reflects(w, mint, AllReadiness(w, mints))
  {
    hide World.Effective, UniquePools;
    forall p | p in mint.pools
      ensures ReadinessOf(AllReadiness(w, mints), p) == w.Effective(mint, p)
    {
      var i :| 0 <= i < |mint.pools| && mint.pools[i] == p;
      EntryFound(mints, ReadinessEntries(w), mint, i);
    }
  }

  /** The bundle a mint gets in this selection. */
  ghost function Offer(w: World, mints: seq<TrackMint>, mint: TrackMint): Option<MintBundle> {
    BundleOf(w, mint, AllReadiness(w, mints))
  }

  /** A mint gets a bundle exactly if it has known pools on two supported DEXes. */
  lemma OfferIffSupported(w: World, mints: seq<TrackMint>, mint: TrackMint)
    requires UniquePools(mints) && mint in mints && DexesMatch(mint)
    ensures Offer(w, mints, mint).Some?
            <==> exists p, q :: p in mint.pools && q in mint.pools && p.known && q.known
                             && IsTrackDex(p.dex) && IsTrackDex(q.dex) && p.dex != q.dex
  {
    hide BundleOf, Reflects, DexesMatch, IsTrackDex, UniquePools;
    ReadinessReflects(w, mints, mint);
    BundleIffSupported(w, mint, AllReadiness(w, mints));
  }

  lemma OffersAreOk(w: World, mints: seq<TrackMint>, mint: TrackMint)
    requires WellFormed(mints) && mint in mints && Offer(w, mints, mint).Some?
    ensures BundleOk(mint, Offer(w, mints, mint).value)
  {
    hide BundleOf, Reflects, MintOk, BundleOk;
    MintsAreOk(mints, mint);
    ReadinessReflects(w, mints, mint);
    EveryBundleOk(w, mint, AllReadiness(w, mints));
  }

  lemma RankedMembers(w: World, mints: seq<TrackMint>)
    ensures forall b :: b in RankedBundles(w, mints) <==> exists m :: m in mints && Offer(w, mints, m) == Some(b)
  {
    hide BundleOf, Collect, Sort, BundleLe;
    var ready := AllReadiness(w, mints);
    CollectedBundles(w, mints, ready);
    SortMembers(Collect(mints, Bundles(w, ready)), BundleLe);
  }

  /** The mint a ranked bundle belongs to. */
  lemma Owner(w: World, mints: seq<TrackMint>, b: MintBundle) returns (m: TrackMint)
    requires WellFormed(mints) && b in RankedBundles(w, mints)
    ensures m in mints && Offer(w, mints, m) == Some(b) && BundleOk(m, b)
  {
    hide Offer, BundleOk, RankedBundles, WellFormed;
    RankedMembers(w, mints);
    m :| m in mints && Offer(w, mints, m) == Some(b);
    OffersAreOk(w, mints, m);
  }

  /** One bundle per mint. */
  ghost predicate OncePerMint(bundles: seq<MintBundle>) {
    forall i, j :: 0 <= i < j < |bundles| ==> bundles[i].mint != bundles[j].mint
  }

  lemma {:induction false} CollectedOnce(w: World, mints: seq<TrackMint>, ready: ReadinessMap)
    requires DistinctMints(mints)
    ensures OncePerMint(Collect(mints, Bundles(w, ready)))
  {
    hide BundleOf;
    if mints != [] {
      hide Collect, OncePerMint;
      var init, last := mints[..|mints| - 1], mints[|mints| - 1];
      CollectedOnce(w, init, ready);
      assert mints == init + [last];
      CollectAppend(init, last, Bundles(w, ready));
      CollectedBundles(w, init, ready);
      forall b | b in Collect(init, Bundles(w, ready))
        ensures b.mint != last.mint
      {
        var m :| m in init && BundleOf(w, m, ready) == Some(b);
        var i :| 0 <= i < |init| && init[i] == m;
        assert mints[i] == m;
      }
      OnceAppend(Collect(init, Bundles(w, ready)), BundleList(w, ready, last), last.mint);
    }
  }

  lemma OnceAppend(bundles: seq<MintBundle>, more: seq<MintBundle>, name: string)
    requires OncePerMint(bundles) && |more| <= 1
    requires (forall b :: b in bundles ==> b.mint != name) && (forall b :: b in more ==> b.mint == name)
    ensures OncePerMint(bundles + more)
  {
  }

  lemma RankedOnce(w: World, mints: seq<TrackMint>)
    requires DistinctMints(mints)
    ensures OncePerMint(RankedBundles(w, mints))
  {
    hide BundleLe, Collect, Bundles;
    var collected := Collect(mints, Bundles(w, AllReadiness(w, mints)));
    CollectedOnce(w, mints, AllReadiness(w, mints));
    OncePermuted(collected, RankedBundles(w, mints));
  }

  lemma OncePermuted(s: seq<MintBundle>, t: seq<MintBundle>)
    requires multiset(s) == multiset(t) && OncePerMint(s)
    ensures OncePerMint(t)
  {
    DistinctKeysPermuted(s, t, (b: MintBundle) => b.mint);
  }

  /** Different mints have no pool address in common. */
  lemma MintsApart(mints: seq<TrackMint>, m: TrackMint, n: TrackMint, p: TrackPool, q: TrackPool)
    requires UniquePools(mints) && m in mints && n in mints && m != n && p in m.pools && q in n.pools
    ensures p.poolAddress != q.poolAddress
  {
    hide NoDuplicates, Collect, Addresses;
    var i :| 0 <= i < |mints| && mints[i] == m;
    var j :| 0 <= j < |mints| && mints[j] == n;
    AddressListed(m.pools, p);
    AddressListed(n.pools, q);
    assert p.poolAddress in PoolAddresses()(m) && q.poolAddress in PoolAddresses()(n);
    if i < j {
      CollectedApart(mints, PoolAddresses(), i, j);
    } else {
      CollectedApart(mints, PoolAddresses(), j, i);
    }
  }

  lemma AddressListed(pools: seq<TrackPool>, p: TrackPool)
    requires p in pools
    ensures p.poolAddress in Addresses(pools)
  {
    AddressesAt(pools);
    var i :| 0 <= i < |pools| && pools[i] == p;
    assert Addresses(pools)[i] == p.poolAddress;
  }

  lemma RankedApart(w: World, mints: seq<TrackMint>)
    requires WellFormed(mints)
    ensures BundlesApart(RankedBundles(w, mints))
  {
    RankedOnce(w, mints);
    hide RankedBundles, WellFormed, Offer;
    var bundles := RankedBundles(w, mints);
    forall k, l, x, y | 0 <= k < l < |bundles| && x in bundles[k].pools && y in bundles[l].pools
      ensures x.pool != y.pool
    {
      assert bundles[k] in bundles && bundles[l] in bundles;
      var m := Owner(w, mints, bundles[k]);
      var n := Owner(w, mints, bundles[l]);
      PinsApart(mints, m, n, x, y);
    }
  }

  lemma PinsApart(mints: seq<TrackMint>, m: TrackMint, n: TrackMint, x: SelectedPool, y: SelectedPool)
    requires WellFormed(mints) && m in mints && n in mints && m.mint != n.mint
    requires (exists p :: PinsPool(m, x, p)) && (exists q :: PinsPool(n, y, q))
    ensures x.pool != y.pool
  {
    hide UniquePools, Consistent;
    var p :| PinsPool(m, x, p);
    var q :| PinsPool(n, y, q);
    MintsApart(mints, m, n, p, q);
  }

  ghost predicate PinnedWhole(r: SelectionResult, b: MintBundle) {
    forall sp :: sp in b.pools ==> sp in r.selected && sp.pool !in r.budgetDisplaced
  }

  ghost predicate DisplacedWhole(r: SelectionResult, b: MintBundle) {
    forall sp :: sp in b.pools ==> sp.pool in r.budgetDisplaced && forall x :: x in r.selected ==> x.pool != sp.pool
  }

  /** The displaced list is exactly what the budget loop displaced, in ascending order without repetition. */
  lemma DisplacedList(w: World, mints: seq<TrackMint>)
    ensures var r := SelectionOf(w, mints);
            && Ascending(r.budgetDisplaced)
            && forall p :: p in r.budgetDisplaced <==> p in Take(RankedBundles(w, mints), w.config.maxPools).displaced
  {
    hide Take, RankedBundles, LexLe, Orphans, CompleteMints, CountsOf;
    var displaced := Take(RankedBundles(w, mints), w.config.maxPools).displaced;
    LexIsTotalPreorder();
    SortSorted(displaced, LexLe);
    SortMembers(displaced, LexLe);
    DedupSorted(Sort(displaced, LexLe));
  }

  /** What becomes of the bundle at rank `k`. */
  lemma Fate(w: World, mints: seq<TrackMint>, k: nat)
    requires WellFormed(mints) && k < |RankedBundles(w, mints)|
    ensures var r, b := SelectionOf(w, mints), RankedBundles(w, mints)[k];
            && |b.pools| >= 2
            && (if Fits(RankedBundles(w, mints), w.config.maxPools, k) then PinnedWhole(r, b)
                else DisplacedWhole(r, b) && |r.selected| + |b.pools| > w.config.maxPools)
  {
    hide Take, RankedBundles, WellFormed, Fits, Offer, Orphans, CompleteMints, CountsOf, PinsPool;
    var bundles, budget := RankedBundles(w, mints), w.config.maxPools;
    assert bundles[k] in bundles;
    var m := Owner(w, mints, bundles[k]);
    DisplacedList(w, mints);
    RankedApart(w, mints);
    NeverBoth(bundles, budget);
    if Fits(bundles, budget, k) {
      FittingBundleMembers(bundles, budget, k);
    } else {
      DisplacedBundleNeverFits(bundles, budget, k);
    }
  }

  lemma NeverBoth(bundles: seq<MintBundle>, budget: nat)
    requires BundlesApart(bundles)
    ensures forall x :: x in Take(bundles, budget).selected ==> x.pool !in Take(bundles, budget).displaced
  {
    forall x | x in Take(bundles, budget).selected
      ensures x.pool !in Take(bundles, budget).displaced
    {
      SelectedAndDisplacedDisjoint(bundles, budget, x);
    }
  }

  lemma FittingBundleMembers(bundles: seq<MintBundle>, budget: nat, k: nat)
    requires k < |bundles| && |bundles[k].pools| >= 2 && Fits(bundles, budget, k)
    ensures bundles[k].mint in Take(bundles, budget).mints
    ensures forall sp :: sp in bundles[k].pools ==> sp in Take(bundles, budget).selected
  {
    hide Take, Fits;
    FittingBundleIsSelected(bundles, budget, k);
    forall sp | sp in bundles[k].pools
      ensures sp in Take(bundles, budget).selected
    {
      BlockMember(Take(bundles, budget).selected, bundles[k].pools, |Take(bundles[..k], budget).selected|, sp);
    }
  }

  lemma BlockMember(all: seq<SelectedPool>, block: seq<SelectedPool>, from: nat, sp: SelectedPool)
    requires from + |block| <= |all| && all[from..from + |block|] == block && sp in block
    ensures sp in all
  {
    assert sp in all[from..from + |block|];
  }

  /** The rank of a mint's bundle. */
  lemma Rank(w: World, mints: seq<TrackMint>, m: TrackMint) returns (k: nat)
    requires m in mints && Offer(w, mints, m).Some?
    ensures k < |RankedBundles(w, mints)| && RankedBundles(w, mints)[k] == Offer(w, mints, m).value
  {
    hide RankedBundles, Offer;
    RankedMembers(w, mints);
    assert Offer(w, mints, m).value in RankedBundles(w, mints);
    k :| 0 <= k < |RankedBundles(w, mints)| && RankedBundles(w, mints)[k] == Offer(w, mints, m).value;
  }

  /** The pin set never exceeds the budget. */
  lemma PinsWithinBudget(w: World, mints: seq<TrackMint>)
    ensures |SelectionOf(w, mints).selected| <= w.config.maxPools
  {
    hide RankedBundles, Orphans, CompleteMints, CountsOf;
    WithinBudget(RankedBundles(w, mints), w.config.maxPools);
  }

  /** Main result: a bundle is pinned whole, or displaced whole and then too big even for the budget left at the end. */
  lemma AllOrNothing(w: World, mints: seq<TrackMint>, m: TrackMint)
    requires WellFormed(mints) && m in mints && Offer(w, mints, m).Some?
    ensures var r, b := SelectionOf(w, mints), Offer(w, mints, m).value;
            PinnedWhole(r, b) <==> !(DisplacedWhole(r, b) && |r.selected| + |b.pools| > w.config.maxPools)
  {
    hide RankedBundles, Offer, WellFormed, SelectionOf, Fits;
    var k := Rank(w, mints, m);
    Fate(w, mints, k);
    var b := Offer(w, mints, m).value;
    assert b.pools[0] in b.pools;
  }

  /** Main result: a bundle pinned although it ranks below a displaced one is strictly smaller. */
  lemma OvertakerIsSmaller(w: World, mints: seq<TrackMint>, m: TrackMint, n: TrackMint)
    requires WellFormed(mints) && m in mints && n in mints && Offer(w, mints, m).Some? && Offer(w, mints, n).Some?
    requires var r, b, c := SelectionOf(w, mints), Offer(w, mints, m).value, Offer(w, mints, n).value;
             DisplacedWhole(r, b) && PinnedWhole(r, c) && !BundleLe(c, b)
    ensures |Offer(w, mints, n).value.pools| < |Offer(w, mints, m).value.pools|
  {
    hide RankedBundles, Offer, WellFormed, SelectionOf, Fits, BundleLe;
    var bundles := RankedBundles(w, mints);
    var k := Rank(w, mints, m);
    var l := Rank(w, mints, n);
    Fate(w, mints, k);
    Fate(w, mints, l);
    assert bundles[k].pools[0] in bundles[k].pools && bundles[l].pools[0] in bundles[l].pools;
    RankedSorted(w, mints);
    OvertakingBundleIsSmaller(bundles, w.config.maxPools, k, l);
  }

  lemma RankedSorted(w: World, mints: seq<TrackMint>)
    ensures Sorted(RankedBundles(w, mints), BundleLe)
  {
    hide BundleLe, Bundles;
    BundleOrder();
    SortSorted(Collect(mints, Bundles(w, AllReadiness(w, mints))), BundleLe);
  }

  /** Nothing else is pinned or displaced. */
  lemma OnlyOffers(w: World, mints: seq<TrackMint>)
    requires WellFormed(mints)
    ensures var r := SelectionOf(w, mints);
            && (forall sp :: sp in r.selected ==> exists m :: m in mints && OfferPinned(w, mints, m, sp))
            && (forall p :: p in r.budgetDisplaced ==> exists m :: m in mints && OfferDisplaced(w, mints, m, p))
  {
    hide Take, RankedBundles, WellFormed, Fits, Offer, Orphans, CompleteMints, CountsOf, PinnedWhole, DisplacedWhole, BundleOk;
    var bundles, budget, r := RankedBundles(w, mints), w.config.maxPools, SelectionOf(w, mints);
    Origins(bundles, budget, |bundles|);
    assert bundles[..|bundles|] == bundles;
    DisplacedList(w, mints);
    forall sp | sp in r.selected
      ensures exists m :: m in mints && OfferPinned(w, mints, m, sp)
    {
      assert SelectedFrom(bundles, budget, |bundles|, sp);
      var k :| 0 <= k < |bundles| && |bundles[k].pools| >= 2 && Fits(bundles, budget, k) && sp in bundles[k].pools;
      assert bundles[k] in bundles;
      var m := Owner(w, mints, bundles[k]);
      Fate(w, mints, k);
      assert OfferPinned(w, mints, m, sp);
    }
    forall p | p in r.budgetDisplaced
      ensures exists m :: m in mints && OfferDisplaced(w, mints, m, p)
    {
      assert DisplacedFrom(bundles, budget, |bundles|, p);
      var k, sp :| 0 <= k < |bundles| && |bundles[k].pools| >= 2 && !Fits(bundles, budget, k) && sp in bundles[k].pools && sp.pool == p;
      assert bundles[k] in bundles;
      var m := Owner(w, mints, bundles[k]);
      Fate(w, mints, k);
      assert OfferDisplaced(w, mints, m, p);
    }
  }

  ghost predicate OfferPinned(w: World, mints: seq<TrackMint>, m: TrackMint, sp: SelectedPool) {
    var offer := Offer(w, mints, m);
    offer.Some? && sp in offer.value.pools && PinnedWhole(SelectionOf(w, mints), offer.value)
  }

  ghost predicate OfferDisplaced(w: World, mints: seq<TrackMint>, m: TrackMint, p: string) {
    var offer := Offer(w, mints, m);
    offer.Some? && (exists sp :: sp in offer.value.pools && sp.pool == p) && DisplacedWhole(SelectionOf(w, mints), offer.value)
  }

  // ----- Every pinned mint has its pair -----

  lemma DexKnown(mints: seq<TrackMint>, m: TrackMint, p: TrackPool)
    requires UniquePools(mints) && m in mints && p in m.pools
    ensures p.poolAddress in DexesByAddress(mints) && DexesByAddress(mints)[p.poolAddress] == p.dex
  {
    hide UniquePools;
    var i :| 0 <= i < |m.pools| && m.pools[i] == p;
    EntryFound(mints, DexEntries(), m, i);
  }

  lemma PinnedMintIsComplete(mints: seq<TrackMint>, m: TrackMint, b: MintBundle, selected: seq<SelectedPool>)
    requires UniquePools(mints) && m in mints && BundleOk(m, b) && forall sp :: sp in b.pools ==> sp in selected
    ensures Complete(selected, DexesByAddress(mints), m.mint)
  {
    hide UniquePools, DexesByAddress, IsTrackDex;
    var sp, sq, p, q :| sp in b.pools && sq in b.pools && PinsPool(m, sp, p) && PinsPool(m, sq, q) && p.dex != q.dex;
    DexKnown(mints, m, p);
    DexKnown(mints, m, q);
  }

  /** Every selected pool's mint is counted. */
  lemma SelectedMintsCounted(w: World, mints: seq<TrackMint>)
    requires WellFormed(mints)
    ensures var taken := Take(RankedBundles(w, mints), w.config.maxPools);
            forall sp :: sp in taken.selected ==> sp.mint in taken.mints
  {
    hide Take, RankedBundles, WellFormed, Fits, Offer;
    var bundles, budget := RankedBundles(w, mints), w.config.maxPools;
    Origins(bundles, budget, |bundles|);
    assert bundles[..|bundles|] == bundles;
    forall sp | sp in Take(bundles, budget).selected
      ensures sp.mint in Take(bundles, budget).mints
    {
      assert SelectedFrom(bundles, budget, |bundles|, sp);
      var k :| 0 <= k < |bundles| && |bundles[k].pools| >= 2 && Fits(bundles, budget, k) && sp in bundles[k].pools;
      assert bundles[k] in bundles;
      var m := Owner(w, mints, bundles[k]);
      FittingBundleMembers(bundles, budget, k);
    }
  }

  /** Every counted mint has a cross-DEX pair among the selected pools. */
  lemma CountedMintComplete(w: World, mints: seq<TrackMint>, name: string)
    requires WellFormed(mints) && name in Take(RankedBundles(w, mints), w.config.maxPools).mints
    ensures Complete(Take(RankedBundles(w, mints), w.config.maxPools).selected, DexesByAddress(mints), name)
  {
    assert UniquePools(mints);
    hide Take, RankedBundles, WellFormed, UniquePools, Fits, Offer, Complete, DexesByAddress, BundleOk;
    var bundles, budget := RankedBundles(w, mints), w.config.maxPools;
    Origins(bundles, budget, |bundles|);
    assert bundles[..|bundles|] == bundles;
    assert CountedFrom(bundles, budget, |bundles|, name);
    var k :| 0 <= k < |bundles| && |bundles[k].pools| >= 2 && Fits(bundles, budget, k) && bundles[k].mint == name;
    assert bundles[k] in bundles;
    var m := Owner(w, mints, bundles[k]);
    FittingBundleMembers(bundles, budget, k);
    PinnedMintIsComplete(mints, m, bundles[k], Take(bundles, budget).selected);
    BundleOkName(m, bundles[k]);
  }

  lemma BundleOkName(m: TrackMint, b: MintBundle)
    requires BundleOk(m, b)
    ensures b.mint == m.mint
  {
  }

  /** Main result: there are never orphan pools, and every selected mint is pair complete. */
  lemma NoOrphans(w: World, mints: seq<TrackMint>)
    requires WellFormed(mints)
    ensures var r := SelectionOf(w, mints);
            r.orphanPools == 0 && r.pairCompleteMints == r.selectedMints
  {
    hide Take, RankedBundles, WellFormed, DexesByAddress, CountsOf, Complete;
    var taken, dexOf := Take(RankedBundles(w, mints), w.config.maxPools), DexesByAddress(mints);
    SelectedMintsCounted(w, mints);
    forall name | name in taken.mints
      ensures Complete(taken.selected, dexOf, name) && name in CompleteMints(taken.selected, dexOf)
    {
      CountedMintComplete(w, mints, name);
      var p := SomeSelected(taken.selected, dexOf, name);
    }
    assert Orphans(taken.selected, dexOf) == {};
    assert CompleteMints(taken.selected, dexOf) == taken.mints;
  }

  lemma SomeSelected(selected: seq<SelectedPool>, dexOf: DexMap, name: string) returns (p: SelectedPool)
    requires Complete(selected, dexOf, name)
    ensures p in selected && p.mint == name
  {
    var x, y :| x in selected && y in selected && x.mint == name && y.mint == name
                && x.pool in dexOf && y.pool in dexOf && dexOf[x.pool] != dexOf[y.pool];
    p := x;
  }

  // ----- No pool is pinned twice -----

  ghost predicate DistinctPins(selected: seq<SelectedPool>) {
    forall i, j :: 0 <= i < j < |selected| ==> selected[i].pool != selected[j].pool
  }

  lemma {:induction false} TakenOnce(bundles: seq<MintBundle>, budget: nat, n: nat)
    requires n <= |bundles| && BundlesApart(bundles) && forall b :: b in bundles ==> DistinctPins(b.pools)
    ensures DistinctPins(Take(bundles[..n], budget).selected)
  {
    if n > 0 {
      TakenOnce(bundles, budget, n - 1);
      TakeStep(bundles, budget, n - 1);
      Origins(bundles, budget, n - 1);
      hide Take, Fits;
      var before, b := Take(bundles[..n - 1], budget).selected, bundles[n - 1];
      assert b in bundles;
      forall x, y | x in before && y in b.pools
        ensures x.pool != y.pool
      {
        assert SelectedFrom(bundles, budget, n - 1, x);
      }
    }
  }

  lemma PinnedOnce(w: World, mints: seq<TrackMint>)
    requires WellFormed(mints)
    ensures DistinctPins(SelectionOf(w, mints).selected)
  {
    hide Take, RankedBundles, WellFormed, Orphans, CompleteMints, CountsOf, Offer;
    var bundles := RankedBundles(w, mints);
    forall b | b in bundles
      ensures DistinctPins(b.pools)
    {
      var m := Owner(w, mints, b);
    }
    RankedApart(w, mints);
    TakenOnce(bundles, w.config.maxPools, |bundles|);
    assert bundles[..|bundles|] == bundles;
  }
}
