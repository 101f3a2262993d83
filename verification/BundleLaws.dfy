/**
 What a mint's bundle pins (src/arbitrage/track_selection.rs:249-523), in terms of pools, tiers, quotes, activity and
 names alone: which pair, at which priority and readiness, for which reason, and which third pool.
 */
module BundleLaws {
  import opened Wrappers
  import opened Sorting
  import opened Collections
  import RT = RoundTrip
  import opened TrackPools
  import opened TrackBundles
  import opened BundleShape
  import opened TrackSelection
  import opened PinSet
  import opened TrackLaws

  /** A supported pool of the mint. */
  ghost predicate Offered(mint: TrackMint, p: TrackPool) {
    p in mint.pools && Supported(p)
  }

  ghost function AtLeast(tier: Readiness, least: Readiness): Readiness {
    if TierAbove(tier, least) then tier else least
  }

  ghost function Lower(a: Readiness, b: Readiness): Readiness {
    if TierAbove(a, b) then b else a
  }

  /** `p` comes no later than `q`: better tier, else by DEX, else by address. */
  ghost predicate PoolNotBehind(w: World, mint: TrackMint, p: TrackPool, q: TrackPool) {
    || TierAbove(w.Effective(mint, p), w.Effective(mint, q))
    || (w.Effective(mint, p) == w.Effective(mint, q) && p.dex != q.dex && LexLe(p.dex, q.dex))
    || (w.Effective(mint, p) == w.Effective(mint, q) && p.dex == q.dex && LexLe(p.poolAddress, q.poolAddress))
  }

  /** An offered pool on neither DEX of the pair. */
  ghost predicate Elsewhere(mint: TrackMint, p: TrackPool, q: TrackPool, t: TrackPool) {
    Offered(mint, t) && t.dex != p.dex && t.dex != q.dex
  }

  /** The bundle pins the pair, and the best pool on a third DEX if there is one and the limit allows it. */
  ghost predicate Describes(w: World, mint: TrackMint, b: MintBundle, p: TrackPool, q: TrackPool, priority: Readiness,
                            least: Readiness, reason: ActiveReason)
  {
    && b.mint == mint.mint && b.priority == priority && b.lastActivityMs == mint.lastActivityMs
    && Offered(mint, p) && Offered(mint, q) && p.dex != q.dex
    && SelectedPool(mint.mint, p.poolAddress, AtLeast(w.Effective(mint, p), least), reason) in b.pools
    && SelectedPool(mint.mint, q.poolAddress, AtLeast(w.Effective(mint, q), least), reason) in b.pools
    && (if w.config.maxPoolsPerMint >= 3 && exists t :: Elsewhere(mint, p, q, t)
        then |b.pools| == 3 && exists t :: IsThird(w, mint, b, p, q, t)
        else |b.pools| == 2)
    && (forall i, j :: 0 <= i < j < |b.pools| ==> LexLe(b.pools[i].pool, b.pools[j].pool))
  }

  ghost predicate IsThird(w: World, mint: TrackMint, b: MintBundle, p: TrackPool, q: TrackPool, t: TrackPool) {
    && Elsewhere(mint, p, q, t) && (forall u :: Elsewhere(mint, p, q, u) ==> PoolNotBehind(w, mint, t, u))
    && SelectedPool(mint.mint, t.poolAddress, w.Effective(mint, t), MultiDex) in b.pools
  }

  // ----- The model's pieces in these terms -----

  lemma EligibleMeans(w: World, mint: TrackMint, ready: ReadinessMap)
    requires Reflects(w, mint, ready)
    ensures forall p :: p in Eligible(mint, ready) <==> Offered(mint, p)
    ensures forall p :: Offered(mint, p) ==> ReadinessOf(ready, p) == w.Effective(mint, p)
  {
    hide World.Effective, Supported, ReadinessOf;
    forall p | p in mint.pools
      ensures ReadinessOf(ready, p).Rejected? <==> !Supported(p)
    {
      TierLaw(w, mint, p);
    }
  }

  lemma EligibleInMint(mint: TrackMint, ready: ReadinessMap)
    ensures forall p :: p in Eligible(mint, ready) ==> p in mint.pools
  {
    hide ReadinessOf;
  }

  lemma MaxMeans(tier: Readiness, least: Readiness)
    ensures tier.Max(least) == AtLeast(tier, least)
    ensures tier.Min(least) == Lower(tier, least)
  {
  }

  lemma PoolOrderTotal(ready: ReadinessMap)
    ensures TotalPreorder(PoolOrder(ready))
  {
    hide LexLe, ReadinessOf;
    LexIsTotalPreorder();
  }

  lemma PoolOrderMeans(w: World, mint: TrackMint, ready: ReadinessMap, p: TrackPool, q: TrackPool)
    requires Reflects(w, mint, ready) && p in mint.pools && q in mint.pools
    ensures PoolLe(ready, p, q) <==> PoolNotBehind(w, mint, p, q)
  {
    hide World.Effective, LexLe, ReadinessOf;
    RankMeans(w.Effective(mint, p), w.Effective(mint, q));
    RankMeans(w.Effective(mint, q), w.Effective(mint, p));
  }

  /** The addresses and DEXes a pair already uses. */
  lemma UsedMeans(mint: TrackMint, eligible: seq<TrackPool>, p: TrackPool, q: TrackPool, pair: seq<SelectedPool>)
    requires NoDuplicates(Addresses(mint.pools)) && p in eligible && q in eligible && forall x :: x in eligible ==> x in mint.pools
    requires |pair| == 2 && pair[0].pool == p.poolAddress && pair[1].pool == q.poolAddress
    ensures UsedAddresses(pair) == {p.poolAddress, q.poolAddress} && UsedDexes(pair, eligible) == {p.dex, q.dex}
  {
    hide NoDuplicates, Addresses;
    FindsItself(mint, eligible, p);
    FindsItself(mint, eligible, q);
    hide Find;
    assert pair[0] in pair && pair[1] in pair;
    assert forall x :: x in pair ==> x == pair[0] || x == pair[1];
  }

  lemma KeptMeans(w: World, mint: TrackMint, ready: ReadinessMap, p: TrackPool, q: TrackPool, t: TrackPool)
    requires NoDuplicates(Addresses(mint.pools)) && Reflects(w, mint, ready) && Offered(mint, p) && Offered(mint, q)
    ensures Elsewhere(mint, p, q, t) <==>
            Offered(mint, t) && t.poolAddress !in {p.poolAddress, q.poolAddress} && t.dex !in {p.dex, q.dex} && Pinable(w, ready, t)
  {
    hide Supported, Pinable, NoDuplicates, Addresses, Reflects;
    if Elsewhere(mint, p, q, t) {
      OfferedPinable(w, mint, ready, t);
      OtherDexOtherAddress(mint, p, t);
      OtherDexOtherAddress(mint, q, t);
    }
  }

  lemma CandidatesAre(w: World, pair: seq<SelectedPool>, eligible: seq<TrackPool>, ready: ReadinessMap)
    ensures var candidates := ThirdCandidates(w, pair, eligible, ready);
            && (forall t :: t in candidates <==>
                  t in eligible && t.poolAddress !in UsedAddresses(pair) && t.dex !in UsedDexes(pair, eligible) && Pinable(w, ready, t))
            && Sorted(candidates, PoolOrder(ready))
  {
    hide Pinable, PoolOrder, UsedAddresses, UsedDexes, Sort;
    var kept := Filter(eligible, Spare(w, ready, UsedAddresses(pair), UsedDexes(pair, eligible)));
    SortMembers(kept, PoolOrder(ready));
    PoolOrderTotal(ready);
    SortSorted(kept, PoolOrder(ready));
  }

  /** The pools considered for the third place. */
  lemma ThirdCandidatesMean(w: World, mint: TrackMint, ready: ReadinessMap, p: TrackPool, q: TrackPool, pair: seq<SelectedPool>)
    requires NoDuplicates(Addresses(mint.pools)) && Reflects(w, mint, ready) && Offered(mint, p) && Offered(mint, q)
    requires |pair| == 2 && pair[0].pool == p.poolAddress && pair[1].pool == q.poolAddress
    ensures var candidates := ThirdCandidates(w, pair, Eligible(mint, ready), ready);
            && (forall t :: t in candidates <==> Elsewhere(mint, p, q, t))
            && (candidates != [] ==> forall u :: Elsewhere(mint, p, q, u) ==> PoolNotBehind(w, mint, candidates[0], u))
  {
    hide Pinable, Elsewhere, Eligible, PoolOrder, PoolNotBehind, NoDuplicates, Addresses, Reflects, Find, Offered, ThirdCandidates, Sorted,
         UsedAddresses, UsedDexes;
    var eligible := Eligible(mint, ready);
    EligibleMeans(w, mint, ready);
    EligibleInMint(mint, ready);
    UsedMeans(mint, eligible, p, q, pair);
    CandidatesAre(w, pair, eligible, ready);
    var candidates := ThirdCandidates(w, pair, eligible, ready);
    forall t
      ensures t in candidates <==> Elsewhere(mint, p, q, t)
    {
      KeptMeans(w, mint, ready, p, q, t);
    }
    BestFirst(w, mint, ready, p, q, candidates);
  }

  lemma BestFirst(w: World, mint: TrackMint, ready: ReadinessMap, p: TrackPool, q: TrackPool, candidates: seq<TrackPool>)
    requires Reflects(w, mint, ready) && Sorted(candidates, PoolOrder(ready))
    requires forall t :: t in candidates <==> Elsewhere(mint, p, q, t)
    ensures candidates != [] ==> forall u :: Elsewhere(mint, p, q, u) ==> PoolNotBehind(w, mint, candidates[0], u)
  {
    hide PoolOrder, PoolNotBehind, Reflects, Supported;
    if candidates != [] {
      forall u | Elsewhere(mint, p, q, u)
        ensures PoolNotBehind(w, mint, candidates[0], u)
      {
        assert u in candidates && candidates[0] in candidates;
        FirstComesFirst(candidates, ready, u);
        PoolOrderMeans(w, mint, ready, candidates[0], u);
      }
    }
  }

  lemma FirstComesFirst(candidates: seq<TrackPool>, ready: ReadinessMap, u: TrackPool)
    requires Sorted(candidates, PoolOrder(ready)) && u in candidates
    ensures PoolLe(ready, candidates[0], u)
  {
    hide LexLe, ReadinessOf;
    LexIsTotalPreorder();
  }

  lemma OfferedPinable(w: World, mint: TrackMint, ready: ReadinessMap, p: TrackPool)
    requires Reflects(w, mint, ready) && Offered(mint, p)
    ensures Pinable(w, ready, p)
  {
    hide World.Effective, World.IsWarmable, Supported, ReadinessOf;
    TierLaw(w, mint, p);
  }

  lemma OtherDexOtherAddress(mint: TrackMint, p: TrackPool, t: TrackPool)
    requires NoDuplicates(Addresses(mint.pools)) && p in mint.pools && t in mint.pools && p.dex != t.dex
    ensures p.poolAddress != t.poolAddress
  {
    hide NoDuplicates, Addresses;
    if p.poolAddress == t.poolAddress {
      SameAddressSamePool(mint.pools, p, t);
    }
  }

  /** With distinct addresses a pool is what its address finds. */
  lemma FindsItself(mint: TrackMint, eligible: seq<TrackPool>, p: TrackPool)
    requires NoDuplicates(Addresses(mint.pools)) && p in eligible && forall x :: x in eligible ==> x in mint.pools
    ensures Find(eligible, p.poolAddress) == Some(p)
  {
    hide NoDuplicates, Addresses;
    SameAddressSamePool(mint.pools, p, Find(eligible, p.poolAddress).value);
  }

  /** Sorting by address keeps what is pinned and orders it. */
  lemma Assembled(w: World, mint: TrackMint, p: TrackPool, q: TrackPool, priority: Readiness, least: Readiness,
                  reason: ActiveReason, all: seq<SelectedPool>)
    requires Offered(mint, p) && Offered(mint, q) && p.dex != q.dex && |all| >= 2
    requires all[0] == SelectedPool(mint.mint, p.poolAddress, AtLeast(w.Effective(mint, p), least), reason)
    requires all[1] == SelectedPool(mint.mint, q.poolAddress, AtLeast(w.Effective(mint, q), least), reason)
    requires if w.config.maxPoolsPerMint >= 3 && exists t :: Elsewhere(mint, p, q, t)
             then |all| == 3 && exists t :: && Elsewhere(mint, p, q, t)
                                            && (forall u :: Elsewhere(mint, p, q, u) ==> PoolNotBehind(w, mint, t, u))
                                            && all[2] == SelectedPool(mint.mint, t.poolAddress, w.Effective(mint, t), MultiDex)
             else |all| == 2
    ensures Describes(w, mint, MintBundle(mint.mint, priority, mint.lastActivityMs, Sort(all, AddressLe)), p, q, priority, least, reason)
  {
    hide World.Effective, Offered, Elsewhere, PoolNotBehind, LexLe, AtLeast, Sort, AddressLe;
    var b := MintBundle(mint.mint, priority, mint.lastActivityMs, Sort(all, AddressLe));
    SortMembers(all, AddressLe);
    SortedSize(all);
    AddressSorted(all);
    assert all[0] in all && all[1] in all;
    if w.config.maxPoolsPerMint >= 3 && exists t :: Elsewhere(mint, p, q, t) {
      var t :| Elsewhere(mint, p, q, t) && (forall u :: Elsewhere(mint, p, q, u) ==> PoolNotBehind(w, mint, t, u))
               && all[2] == SelectedPool(mint.mint, t.poolAddress, w.Effective(mint, t), MultiDex);
      assert all[2] in all;
      assert IsThird(w, mint, b, p, q, t);
    }
  }

  lemma SortedSize(all: seq<SelectedPool>)
    ensures |Sort(all, AddressLe)| == |all|
  {
  }

  lemma SelectMeans(w: World, mint: TrackMint, p: TrackPool, least: Readiness, reason: ActiveReason, ready: ReadinessMap)
    requires Reflects(w, mint, ready) && p in mint.pools
    ensures Select(mint, p, least, reason, ready) == SelectedPool(mint.mint, p.poolAddress, AtLeast(w.Effective(mint, p), least), reason)
    ensures Select(mint, p, ReadinessOf(ready, p), reason, ready) == SelectedPool(mint.mint, p.poolAddress, w.Effective(mint, p), reason)
  {
    hide World.Effective, ReadinessOf;
    MaxMeans(w.Effective(mint, p), least);
  }

  /** The bundle around a pair is as described. */
  lemma PairBundleLaw(w: World, mint: TrackMint, p: TrackPool, q: TrackPool, priority: Readiness, least: Readiness,
                      reason: ActiveReason, ready: ReadinessMap)
    requires NoDuplicates(Addresses(mint.pools)) && Reflects(w, mint, ready)
    requires Offered(mint, p) && Offered(mint, q) && p.dex != q.dex
    ensures Describes(w, mint, PairBundle(w, mint, p, q, priority, least, reason, Eligible(mint, ready), ready), p, q, priority, least, reason)
  {
    hide World.Effective, Supported, Eligible, ReadinessOf, PoolNotBehind, NoDuplicates, Addresses, ThirdCandidates, Select, Sort,
         AtLeast, Describes, Reflects;
    var pair := [Select(mint, p, least, reason, ready), Select(mint, q, least, reason, ready)];
    SelectMeans(w, mint, p, least, reason, ready);
    SelectMeans(w, mint, q, least, reason, ready);
    ThirdCandidatesMean(w, mint, ready, p, q, pair);
    var candidates := ThirdCandidates(w, pair, Eligible(mint, ready), ready);
    var all := WithThird(w, mint, pair, Eligible(mint, ready), ready);
    if candidates != [] {
      assert candidates[0] in candidates;
      SelectMeans(w, mint, candidates[0], least, MultiDex, ready);
    } else {
      assert forall t :: !Elsewhere(mint, p, q, t);
    }
    Assembled(w, mint, p, q, priority, least, reason, all);
  }

  lemma AddressSorted(all: seq<SelectedPool>)
    ensures var s := Sort(all, AddressLe);
            forall i, j :: 0 <= i < j < |s| ==> LexLe(s[i].pool, s[j].pool)
  {
    hide LexLe;
    LexIsTotalPreorder();
    SortSorted(all, AddressLe);
  }

  // ----- The pair of a trade signal -----

  /** The signal names the two offered pools, on different DEXes. */
  ghost predicate SignalPair(mint: TrackMint, p: TrackPool, q: TrackPool) {
    Offered(mint, p) && Offered(mint, q) && p.dex != q.dex && mint.signal == Some((p.poolAddress, q.poolAddress))
  }

  lemma SignalLaw(w: World, mint: TrackMint, ready: ReadinessMap)
    requires NoDuplicates(Addresses(mint.pools)) && Reflects(w, mint, ready)
    ensures var bundle := FromSignal(w, mint, Eligible(mint, ready), ready);
            && (bundle.Some? <==> exists p, q :: SignalPair(mint, p, q))
            && (bundle.Some? ==> exists p, q :: SignalPair(mint, p, q) && Describes(w, mint, bundle.value, p, q, Executable, Executable, TradeSignal))
  {
    hide Eligible, PairBundle, Describes, NoDuplicates, Addresses, Reflects, Supported, Find;
    var eligible := Eligible(mint, ready);
    EligibleMeans(w, mint, ready);
    var bundle := FromSignal(w, mint, eligible, ready);
    if p, q :| SignalPair(mint, p, q) {
      FindsItself(mint, eligible, p);
      FindsItself(mint, eligible, q);
    }
    if bundle.Some? {
      var p, q := Find(eligible, mint.signal.value.0).value, Find(eligible, mint.signal.value.1).value;
      PairBundleLaw(w, mint, p, q, Executable, Executable, TradeSignal, ready);
      assert SignalPair(mint, p, q);
    }
  }

  // ----- The pair of the best round trip -----

  /** The round trip that is looked for: among the given pools, with the probe, at this instant. */
  lemma TaskMeans(w: World, pools: seq<TrackPool>)
    ensures var t := RoundTripTask(w, pools);
            && t.env == w.env && t.orca == map[] && t.probe == w.config.probe && t.freshness == w.config.freshness && t.now == w.now
            && (forall i: nat, j: nat :: t.buyRead(i) == w.now && t.sellRead(i, j) == w.now)
            && |t.candidates| == |pools|
            && (forall i :: 0 <= i < |pools| ==>
                  && t.candidates[i].pool == pools[i].quotePool && t.candidates[i].vault == pools[i].vault
                  && t.candidates[i].bins == pools[i].bins && t.candidates[i].dex == pools[i].dex)
  {
  }

  lemma RoundTripLaw(w: World, mint: TrackMint, ready: ReadinessMap)
    requires MintOk(mint) && Reflects(w, mint, ready)
    ensures var pools := Eligible(mint, ready);
            var bundle := FromRoundTrip(w, mint, pools, ready);
            && (bundle.Some? <==> exists a: nat, c: nat :: RT.Best(RoundTripTask(w, pools), Some((a, c))))
            && (bundle.Some? ==> exists a: nat, c: nat ::
                  && RT.Best(RoundTripTask(w, pools), Some((a, c))) && a < |pools| && c < |pools|
                  && Describes(w, mint, bundle.value, pools[a], pools[c], QuoteReady, QuoteReady, MultiDex))
  {
    hide Eligible, PairBundle, Describes, NoDuplicates, Addresses, Reflects, Supported, Find, RT.BestBefore, RoundTripTask;
    var pools := Eligible(mint, ready);
    var t := RoundTripTask(w, pools);
    EligibleMeans(w, mint, ready);
    TaskMeans(w, pools);
    var best := RT.BestPair(t);
    if a: nat, c: nat :| RT.Best(t, Some((a, c))) {
      RT.BestIsUnique(t, Some((a, c)), best);
    }
    if best.Some? {
      var (a, c) := best.value;
      RT.BestIsUsable(t, a, c);
      RT.DifferentLabels(t, a, c);
      var p, q := pools[a], pools[c];
      assert p in pools && q in pools;
      FindsItself(mint, pools, p);
      FindsItself(mint, pools, q);
      PairBundleLaw(w, mint, p, q, QuoteReady, QuoteReady, MultiDex, ready);
    }
  }

  // ----- The best pinable pair -----

  ghost function Recency(p: TrackPool, q: TrackPool): nat {
    if p.lastActivityMs >= q.lastActivityMs then p.lastActivityMs else q.lastActivityMs
  }

  /** The pair (u, v) is strictly better than (p, q): its lower tier is better, or as good and it is more recent. */
  ghost predicate PairAhead(w: World, mint: TrackMint, u: TrackPool, v: TrackPool, p: TrackPool, q: TrackPool) {
    var here, there := Lower(w.Effective(mint, u), w.Effective(mint, v)), Lower(w.Effective(mint, p), w.Effective(mint, q));
    TierAbove(here, there) || (here == there && Recency(u, v) > Recency(p, q))
  }

  ghost predicate Cross(mint: TrackMint, u: TrackPool, v: TrackPool) {
    Offered(mint, u) && Offered(mint, v) && u.dex != v.dex
  }

  /** No cross-DEX pair is better, and of the equally good ones this comes first in pool order. */
  ghost predicate TopPair(w: World, mint: TrackMint, p: TrackPool, q: TrackPool) {
    && Cross(mint, p, q) && PoolNotBehind(w, mint, p, q)
    && (forall u, v :: Cross(mint, u, v) ==> !PairAhead(w, mint, u, v, p, q))
    && (forall u, v :: Cross(mint, u, v) && PoolNotBehind(w, mint, u, v) && !PairAhead(w, mint, p, q, u, v) ==>
          PoolNotBehind(w, mint, p, u) && (u == p ==> PoolNotBehind(w, mint, q, v)))
  }

  /** The first best pair before position (i, j) of the scan. */
  ghost predicate FirstBest(ready: ReadinessMap, pools: seq<TrackPool>, i: nat, j: nat, best: Option<Pair>) {
    match best
    case None => forall x, y :: 0 <= x < y < |pools| && Passed(i, j, x, y) ==> pools[x].dex == pools[y].dex
    case Some(pair) =>
      exists x0, y0 ::
        && 0 <= x0 < y0 < |pools| && Passed(i, j, x0, y0) && pools[x0].dex != pools[y0].dex && pair == MakePair(ready, pools[x0], pools[y0])
        && AllBeaten(ready, pools, i, j, x0, y0)
  }

  ghost predicate AllBeaten(ready: ReadinessMap, pools: seq<TrackPool>, i: nat, j: nat, x0: int, y0: int)
    requires 0 <= x0 < y0 < |pools|
  {
    forall x, y :: 0 <= x < y < |pools| && Passed(i, j, x, y) && pools[x].dex != pools[y].dex ==>
      && !MakePair(ready, pools[x], pools[y]).Beats(MakePair(ready, pools[x0], pools[y0]))
      && (Passed(x0, y0, x, y) ==> MakePair(ready, pools[x0], pools[y0]).Beats(MakePair(ready, pools[x], pools[y])))
  }

  ghost predicate Passed(i: int, j: int, x: int, y: int) {
    x < i || (x == i && y < j)
  }

  lemma BeatsTransitive(a: Pair, b: Pair, c: Pair)
    ensures a.Beats(b) && !c.Beats(b) ==> a.Beats(c)
    ensures !a.Beats(a) && (a.Beats(b) ==> !b.Beats(a))
  {
  }

  lemma FirstBestStep(ready: ReadinessMap, pools: seq<TrackPool>, i: nat, j: nat, best: Option<Pair>)
    requires i < j < |pools| && FirstBest(ready, pools, i, j, best)
    ensures FirstBest(ready, pools, i, j + 1, Consider(ready, best, pools[i], pools[j]))
  {
    hide Pair.Beats, MakePair, AllBeaten;
    var here := MakePair(ready, pools[i], pools[j]);
    if best.Some? {
      var x0, y0 :| 0 <= x0 < y0 < |pools| && Passed(i, j, x0, y0) && pools[x0].dex != pools[y0].dex
                    && best.value == MakePair(ready, pools[x0], pools[y0]) && AllBeaten(ready, pools, i, j, x0, y0);
      if pools[i].dex != pools[j].dex && here.Beats(best.value) {
        BeatenByNext(ready, pools, i, j, x0, y0);
      } else {
        StillBeaten(ready, pools, i, j, x0, y0);
      }
    } else if pools[i].dex != pools[j].dex {
      FirstPair(ready, pools, i, j);
    }
  }

  lemma BeatenByNext(ready: ReadinessMap, pools: seq<TrackPool>, i: nat, j: nat, x0: nat, y0: nat)
    requires i < j < |pools| && x0 < y0 < |pools| && AllBeaten(ready, pools, i, j, x0, y0)
    requires MakePair(ready, pools[i], pools[j]).Beats(MakePair(ready, pools[x0], pools[y0]))
    ensures AllBeaten(ready, pools, i, j + 1, i, j)
  {
    hide Pair.Beats, MakePair;
    var here, best := MakePair(ready, pools[i], pools[j]), MakePair(ready, pools[x0], pools[y0]);
    forall x, y | 0 <= x < y < |pools| && Passed(i, j + 1, x, y) && pools[x].dex != pools[y].dex
      ensures !MakePair(ready, pools[x], pools[y]).Beats(here) && (Passed(i, j, x, y) ==> here.Beats(MakePair(ready, pools[x], pools[y])))
    {
      var other := MakePair(ready, pools[x], pools[y]);
      BeatsTransitive(here, best, other);
      BeatsTransitive(here, other, here);
      assert Passed(i, j, x, y) || (x == i && y == j);
    }
  }

  lemma StillBeaten(ready: ReadinessMap, pools: seq<TrackPool>, i: nat, j: nat, x0: nat, y0: nat)
    requires i < j < |pools| && x0 < y0 < |pools| && AllBeaten(ready, pools, i, j, x0, y0) && Passed(i, j, x0, y0)
    requires pools[i].dex == pools[j].dex || !MakePair(ready, pools[i], pools[j]).Beats(MakePair(ready, pools[x0], pools[y0]))
    ensures AllBeaten(ready, pools, i, j + 1, x0, y0)
  {
    hide Pair.Beats, MakePair;
    assert forall x, y :: Passed(i, j + 1, x, y) ==> Passed(i, j, x, y) || (x == i && y == j);
  }

  lemma FirstPair(ready: ReadinessMap, pools: seq<TrackPool>, i: nat, j: nat)
    requires i < j < |pools| && FirstBest(ready, pools, i, j, None)
    ensures AllBeaten(ready, pools, i, j + 1, i, j)
  {
    hide Pair.Beats, MakePair;
    var here := MakePair(ready, pools[i], pools[j]);
    BeatsTransitive(here, here, here);
    assert forall x, y :: Passed(i, j + 1, x, y) ==> Passed(i, j, x, y) || (x == i && y == j);
  }

  lemma FirstBestRow(ready: ReadinessMap, pools: seq<TrackPool>, i: nat, j: nat, best: Option<Pair>)
    requires i < |pools| <= j && FirstBest(ready, pools, i, j, best)
    ensures FirstBest(ready, pools, i + 1, i + 2, best)
  {
    hide Pair.Beats, MakePair;
    if best.Some? {
      var x0, y0 :| 0 <= x0 < y0 < |pools| && Passed(i, j, x0, y0) && pools[x0].dex != pools[y0].dex
                    && best.value == MakePair(ready, pools[x0], pools[y0]) && AllBeaten(ready, pools, i, j, x0, y0);
      assert AllBeaten(ready, pools, i + 1, i + 2, x0, y0);
    }
  }

  lemma {:induction false} ScanFirstBest(ready: ReadinessMap, pools: seq<TrackPool>, i: nat, j: nat, best: Option<Pair>)
    requires i <= |pools| && i < j && FirstBest(ready, pools, i, j, best)
    ensures FirstBest(ready, pools, |pools|, |pools| + 1, Scan(ready, pools, i, j, best))
    decreases |pools| - i, if j <= |pools| then |pools| - j else 0
  {
    hide FirstBest, Consider;
    if i == |pools| {
      FirstBestEnd(ready, pools, j, best);
    } else if j >= |pools| {
      FirstBestRow(ready, pools, i, j, best);
      ScanFirstBest(ready, pools, i + 1, i + 2, best);
    } else {
      FirstBestStep(ready, pools, i, j, best);
      ScanFirstBest(ready, pools, i, j + 1, Consider(ready, best, pools[i], pools[j]));
    }
  }

  lemma FirstBestEnd(ready: ReadinessMap, pools: seq<TrackPool>, j: nat, best: Option<Pair>)
    requires FirstBest(ready, pools, |pools|, j, best)
    ensures FirstBest(ready, pools, |pools|, |pools| + 1, best)
  {
    hide Pair.Beats, MakePair;
    if best.Some? {
      var x0, y0 :| 0 <= x0 < y0 < |pools| && Passed(|pools|, j, x0, y0) && pools[x0].dex != pools[y0].dex
                    && best.value == MakePair(ready, pools[x0], pools[y0]) && AllBeaten(ready, pools, |pools|, j, x0, y0);
      assert AllBeaten(ready, pools, |pools|, |pools| + 1, x0, y0);
    }
  }

  ghost predicate DistinctPools(s: seq<TrackPool>) {
    forall i, j :: 0 <= i < j < |s| ==> s[i].poolAddress != s[j].poolAddress
  }

  lemma {:induction false} DistinctKept(s: seq<TrackPool>, keep: TrackPool -> bool)
    requires DistinctPools(s)
    ensures DistinctPools(Filter(s, keep))
  {
    if s != [] {
      var init, last := s[..|s| - 1], s[|s| - 1];
      DistinctKept(init, keep);
      var r := Filter(init, keep);
      forall i | 0 <= i < |r|
        ensures r[i].poolAddress != last.poolAddress
      {
        assert r[i] in init;
        var k :| 0 <= k < |init| && init[k] == r[i];
        assert s[k].poolAddress != s[|s| - 1].poolAddress;
      }
      assert DistinctPools(r + [last]);
    }
  }

  lemma DistinctInput(pools: seq<TrackPool>)
    requires NoDuplicates(Addresses(pools))
    ensures DistinctPools(pools)
  {
    hide NoDuplicates;
    AddressesAt(pools);
    forall i, j | 0 <= i < j < |pools|
      ensures pools[i].poolAddress != pools[j].poolAddress
    {
      NoDuplicatesDistinct(Addresses(pools), i, j);
    }
  }

  lemma DistinctSorted(s: seq<TrackPool>, le: (TrackPool, TrackPool) -> bool)
    requires DistinctPools(s)
    ensures DistinctPools(Sort(s, le))
  {
    DistinctKeysPermuted(s, Sort(s, le), (p: TrackPool) => p.poolAddress);
  }

  /** The pools the pair scan walks: all offered ones, once each, in pool order. */
  lemma PinableMeans(w: World, mint: TrackMint, ready: ReadinessMap)
    requires NoDuplicates(Addresses(mint.pools)) && Reflects(w, mint, ready)
    ensures var pools := PinablePools(w, Eligible(mint, ready), ready);
            && (forall p :: p in pools <==> Offered(mint, p)) && DistinctPools(pools)
            && (forall i, j :: 0 <= i < j < |pools| ==> PoolNotBehind(w, mint, pools[i], pools[j]))
  {
    var eligible := Eligible(mint, ready);
    DistinctInput(mint.pools);
    DistinctKept(mint.pools, (p: TrackPool) => !ReadinessOf(ready, p).Rejected?);
    hide Pinable, PoolOrder, PoolNotBehind, NoDuplicates, Addresses, DistinctPools, Sort, ReadinessOf;
    DistinctKept(eligible, (p: TrackPool) => Pinable(w, ready, p));
    DistinctSorted(Filter(eligible, (p: TrackPool) => Pinable(w, ready, p)), PoolOrder(ready));
    EligiblePinable(w, mint, ready);
    EligibleMeans(w, mint, ready);
    hide Reflects, Supported, Eligible;
    PinableSorted(w, eligible, ready);
    var pools := PinablePools(w, eligible, ready);
    forall i, j | 0 <= i < j < |pools|
      ensures PoolNotBehind(w, mint, pools[i], pools[j])
    {
      assert pools[i] in pools && pools[j] in pools;
      InOrder(pools, ready, i, j);
      PoolOrderMeans(w, mint, ready, pools[i], pools[j]);
    }
  }

  lemma PinableSorted(w: World, eligible: seq<TrackPool>, ready: ReadinessMap)
    ensures Sorted(PinablePools(w, eligible, ready), PoolOrder(ready))
  {
    hide PoolOrder, Pinable;
    PoolOrderTotal(ready);
    SortSorted(Filter(eligible, (p: TrackPool) => Pinable(w, ready, p)), PoolOrder(ready));
  }

  lemma InOrder(pools: seq<TrackPool>, ready: ReadinessMap, i: nat, j: nat)
    requires Sorted(pools, PoolOrder(ready)) && i < j < |pools|
    ensures PoolLe(ready, pools[i], pools[j])
  {
    hide LexLe, ReadinessOf;
  }

  lemma BeatsMeans(w: World, mint: TrackMint, ready: ReadinessMap, u: TrackPool, v: TrackPool, p: TrackPool, q: TrackPool)
    requires Reflects(w, mint, ready) && u in mint.pools && v in mint.pools && p in mint.pools && q in mint.pools
    ensures MakePair(ready, u, v).Beats(MakePair(ready, p, q)) <==> PairAhead(w, mint, u, v, p, q)
    ensures PairAhead(w, mint, u, v, p, q) <==> PairAhead(w, mint, v, u, p, q)
    ensures MakePair(ready, p, q).priority == Lower(w.Effective(mint, p), w.Effective(mint, q))
  {
    hide World.Effective, ReadinessOf;
    MaxMeans(w.Effective(mint, u), w.Effective(mint, v));
    MaxMeans(w.Effective(mint, p), w.Effective(mint, q));
    RankMeans(Lower(w.Effective(mint, u), w.Effective(mint, v)), Lower(w.Effective(mint, p), w.Effective(mint, q)));
  }

  /** The order of pools has no ties between different addresses. */
  lemma SamePlace(w: World, mint: TrackMint, p: TrackPool, q: TrackPool)
    requires PoolNotBehind(w, mint, p, q) && PoolNotBehind(w, mint, q, p)
    ensures p.dex == q.dex && p.poolAddress == q.poolAddress
  {
    hide World.Effective, LexLe;
    LexIsTotalPreorder();
  }

  /** Positions of a cross-DEX pair in the list, in order. */
  lemma PositionsOf(w: World, mint: TrackMint, pools: seq<TrackPool>, u: TrackPool, v: TrackPool) returns (x: nat, y: nat)
    requires u in pools && v in pools && u.dex != v.dex && PoolNotBehind(w, mint, u, v)
    requires forall i, j :: 0 <= i < j < |pools| ==> PoolNotBehind(w, mint, pools[i], pools[j])
    ensures x < y < |pools| && pools[x] == u && pools[y] == v
  {
    hide PoolNotBehind;
    x :| 0 <= x < |pools| && pools[x] == u;
    y :| 0 <= y < |pools| && pools[y] == v;
    if y < x {
      SamePlace(w, mint, u, v);
    }
  }

  lemma EitherOrder(w: World, mint: TrackMint, u: TrackPool, v: TrackPool)
    ensures PoolNotBehind(w, mint, u, v) || PoolNotBehind(w, mint, v, u)
  {
    hide World.Effective, LexLe;
    LexIsTotalPreorder();
  }

  /** The scan's pair is the top pair. */
  lemma TopPairLaw(w: World, mint: TrackMint, ready: ReadinessMap)
    requires NoDuplicates(Addresses(mint.pools)) && Reflects(w, mint, ready)
    ensures var r := Scan(ready, PinablePools(w, Eligible(mint, ready), ready), 0, 1, None);
            && (r.Some? <==> exists u, v :: Cross(mint, u, v))
            && (r.Some? ==> TopPair(w, mint, r.value.a, r.value.b)
                            && r.value.priority == Lower(w.Effective(mint, r.value.a), w.Effective(mint, r.value.b)))
  {
    hide PoolNotBehind, NoDuplicates, Addresses, Pair.Beats, MakePair, PairAhead, Supported, Eligible, PinablePools, Scan, AllBeaten;
    var pools := PinablePools(w, Eligible(mint, ready), ready);
    PinableMeans(w, mint, ready);
    ScanFirstBest(ready, pools, 0, 1, None);
    var r := Scan(ready, pools, 0, 1, None);
    CrossIsScanned(w, mint, ready, pools, r);
    if r.Some? {
      var x0, y0 :| 0 <= x0 < y0 < |pools| && pools[x0].dex != pools[y0].dex && r.value == MakePair(ready, pools[x0], pools[y0])
                    && AllBeaten(ready, pools, |pools|, |pools| + 1, x0, y0);
      assert pools[x0] in pools && pools[y0] in pools;
      PairParts(ready, pools[x0], pools[y0]);
      BeatsMeans(w, mint, ready, pools[x0], pools[y0], pools[x0], pools[y0]);
      FirstIsTop(w, mint, ready, pools, x0, y0);
    }
  }

  lemma CrossIsScanned(w: World, mint: TrackMint, ready: ReadinessMap, pools: seq<TrackPool>, r: Option<Pair>)
    requires (forall p :: p in pools <==> Offered(mint, p)) && FirstBest(ready, pools, |pools|, |pools| + 1, r)
    requires forall i, j :: 0 <= i < j < |pools| ==> PoolNotBehind(w, mint, pools[i], pools[j])
    ensures r.None? ==> forall u, v :: !Cross(mint, u, v)
  {
    hide PoolNotBehind, Supported, Offered;
    if r.None? {
      forall u, v | u in pools && v in pools
        ensures u.dex == v.dex
      {
        if u.dex != v.dex {
          EitherOrder(w, mint, u, v);
          if PoolNotBehind(w, mint, u, v) {
            var x, y := PositionsOf(w, mint, pools, u, v);
          } else {
            var x, y := PositionsOf(w, mint, pools, v, u);
          }
        }
      }
    }
  }

  lemma PairParts(ready: ReadinessMap, p: TrackPool, q: TrackPool)
    ensures MakePair(ready, p, q).a == p && MakePair(ready, p, q).b == q
  {
  }

  lemma FirstIsTop(w: World, mint: TrackMint, ready: ReadinessMap, pools: seq<TrackPool>, x0: nat, y0: nat)
    requires Reflects(w, mint, ready) && x0 < y0 < |pools| && pools[x0].dex != pools[y0].dex
    requires (forall p :: p in pools <==> Offered(mint, p)) && DistinctPools(pools)
    requires forall i, j :: 0 <= i < j < |pools| ==> PoolNotBehind(w, mint, pools[i], pools[j])
    requires AllBeaten(ready, pools, |pools|, |pools| + 1, x0, y0)
    ensures TopPair(w, mint, pools[x0], pools[y0])
  {
    hide PoolNotBehind, Pair.Beats, MakePair, PairAhead, Supported, Reflects, AllBeaten;
    var p, q := pools[x0], pools[y0];
    assert p in pools && q in pools;
    forall u, v | Cross(mint, u, v)
      ensures !PairAhead(w, mint, u, v, p, q)
      ensures PoolNotBehind(w, mint, u, v) && !PairAhead(w, mint, p, q, u, v) ==>
                PoolNotBehind(w, mint, p, u) && (u == p ==> PoolNotBehind(w, mint, q, v))
    {
      EitherOrder(w, mint, u, v);
      BeatsMeans(w, mint, ready, u, v, p, q);
      if PoolNotBehind(w, mint, u, v) {
        var x, y := PositionsOf(w, mint, pools, u, v);
        NoneAhead(w, mint, ready, pools, x0, y0, x, y);
      } else {
        var x, y := PositionsOf(w, mint, pools, v, u);
        NoneAhead(w, mint, ready, pools, x0, y0, x, y);
      }
    }
  }

  lemma NoneAhead(w: World, mint: TrackMint, ready: ReadinessMap, pools: seq<TrackPool>, x0: nat, y0: nat, x: nat, y: nat)
    requires Reflects(w, mint, ready) && x0 < y0 < |pools| && x < y < |pools| && pools[x].dex != pools[y].dex
    requires (forall p :: p in pools <==> Offered(mint, p)) && DistinctPools(pools)
    requires forall i, j :: 0 <= i < j < |pools| ==> PoolNotBehind(w, mint, pools[i], pools[j])
    requires AllBeaten(ready, pools, |pools|, |pools| + 1, x0, y0)
    ensures !PairAhead(w, mint, pools[x], pools[y], pools[x0], pools[y0])
    ensures !PairAhead(w, mint, pools[x0], pools[y0], pools[x], pools[y]) ==>
              PoolNotBehind(w, mint, pools[x0], pools[x]) && (pools[x] == pools[x0] ==> PoolNotBehind(w, mint, pools[y0], pools[y]))
  {
    hide PoolNotBehind, Pair.Beats, MakePair, PairAhead, Supported, Reflects;
    assert pools[x] in pools && pools[y] in pools && pools[x0] in pools && pools[y0] in pools;
    BeatsMeans(w, mint, ready, pools[x], pools[y], pools[x0], pools[y0]);
    BeatsMeans(w, mint, ready, pools[x0], pools[y0], pools[x], pools[y]);
    EitherOrder(w, mint, pools[x0], pools[x0]);
    EitherOrder(w, mint, pools[y0], pools[y0]);
    assert Passed(|pools|, |pools| + 1, x, y);
  }

  // ----- The bundle -----

  /** What a mint with these offered pools, in input order, is bundled into. */
  ghost predicate BundledAs(w: World, mint: TrackMint, pools: seq<TrackPool>, b: MintBundle) {
    if exists p, q :: SignalPair(mint, p, q) then
      exists p, q :: SignalPair(mint, p, q) && Describes(w, mint, b, p, q, Executable, Executable, TradeSignal)
    else if exists a: nat, c: nat :: RT.Best(RoundTripTask(w, pools), Some((a, c))) then
      exists a: nat, c: nat ::
        && RT.Best(RoundTripTask(w, pools), Some((a, c))) && a < |pools| && c < |pools|
        && Describes(w, mint, b, pools[a], pools[c], QuoteReady, QuoteReady, MultiDex)
    else
      exists p, q ::
        && TopPair(w, mint, p, q)
        && Describes(w, mint, b, p, q, Lower(w.Effective(mint, p), w.Effective(mint, q)), QuoteReady, MultiDex)
  }

  /**
   Main result: a bundle pins the signal's pair if it is offered, else the best round trip's, else the top pair
   by tier, recency and pool order, each at its own priority and readiness, and the best third pool.
   */
  lemma BundleLaw(w: World, mint: TrackMint, ready: ReadinessMap)
    requires MintOk(mint) && Reflects(w, mint, ready) && BundleOf(w, mint, ready).Some?
    ensures BundledAs(w, mint, Eligible(mint, ready), BundleOf(w, mint, ready).value)
  {
    hide FromSignal, FromRoundTrip, FromPinable, BundleOf, Describes, Reflects, MintOk, Eligible, RT.BestBefore, RoundTripTask,
         TopPair, SignalPair;
    AddressesDistinct(mint);
    ThreeWays(w, mint, ready);
    SignalLaw(w, mint, ready);
    RoundTripLaw(w, mint, ready);
    PinableLaw(w, mint, ready);
  }

  /** The three builders in their order. */
  lemma ThreeWays(w: World, mint: TrackMint, ready: ReadinessMap)
    requires BundleOf(w, mint, ready).Some?
    ensures var pools, b := Eligible(mint, ready), BundleOf(w, mint, ready);
            if FromSignal(w, mint, pools, ready).Some? then b == FromSignal(w, mint, pools, ready)
            else if FromRoundTrip(w, mint, pools, ready).Some? then b == FromRoundTrip(w, mint, pools, ready)
            else b == FromPinable(w, mint, pools, ready)
  {
    hide FromSignal, FromRoundTrip, FromPinable, Eligible, DistinctDexes;
  }

  lemma PinableLaw(w: World, mint: TrackMint, ready: ReadinessMap)
    requires NoDuplicates(Addresses(mint.pools)) && Reflects(w, mint, ready)
    ensures var bundle := FromPinable(w, mint, Eligible(mint, ready), ready);
            bundle.Some? ==> exists p, q ::
              && TopPair(w, mint, p, q)
              && Describes(w, mint, bundle.value, p, q, Lower(w.Effective(mint, p), w.Effective(mint, q)), QuoteReady, MultiDex)
  {
    hide PairBundle, Describes, Reflects, NoDuplicates, Addresses, Eligible, PinablePools, Scan, PoolNotBehind, PairAhead, Supported;
    TopPairLaw(w, mint, ready);
    var r := Scan(ready, PinablePools(w, Eligible(mint, ready), ready), 0, 1, None);
    if r.Some? {
      PairBundleLaw(w, mint, r.value.a, r.value.b, r.value.priority, QuoteReady, MultiDex, ready);
    }
  }

  lemma AddressesDistinct(mint: TrackMint)
    requires MintOk(mint)
    ensures NoDuplicates(Addresses(mint.pools))
  {
  }

  /** In a selection over well-formed mints, every offer is bundled so. */
  lemma OfferLaw(w: World, mints: seq<TrackMint>, mint: TrackMint)
    requires WellFormed(mints) && mint in mints && Offer(w, mints, mint).Some?
    ensures exists pools: seq<TrackPool> ::
              (forall p :: p in pools <==> Offered(mint, p)) && BundledAs(w, mint, pools, Offer(w, mints, mint).value)
  {
    hide BundleOf, Reflects, MintOk, BundledAs, Supported, Eligible;
    MintsAreOk(mints, mint);
    ReadinessReflects(w, mints, mint);
    EligibleMeans(w, mint, AllReadiness(w, mints));
    BundleLaw(w, mint, AllReadiness(w, mints));
  }
}
