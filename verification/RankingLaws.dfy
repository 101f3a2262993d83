/**
 What the ranker (src/arbitrage/pool_ranker.rs:131-216, src/arbitrage/types.rs:145-166) ranks by, in terms of the
 graph, the quotes and the settings alone.
 */
module RankingLaws {
  import opened Types
  import opened Wrappers
  import opened Sorting
  import opened Collections
  import opened PoolGraphs
  import opened PoolGraphObject
  import opened SearchNodes
  import opened PoolRanking

  /** The pool is stored between the mints, ready, and quotes the probe in this direction. */
  ghost predicate Usable(m: Market, u: Pubkey, v: Pubkey, e: PoolEdge) {
    && e in PoolsBetween(m.adj, u, v) && m.provider.quoteReady(e.poolAddress)
    && m.provider.probeQuote(e.poolAddress, e.dex, u, v, m.config.probeAmount).Some?
  }

  /** What the probe brings per unit put in. */
  ghost function Rate(m: Market, u: Pubkey, v: Pubkey, e: PoolEdge): real
    requires m.provider.probeQuote(e.poolAddress, e.dex, u, v, m.config.probeAmount).Some?
  {
    m.provider.probeQuote(e.poolAddress, e.dex, u, v, m.config.probeAmount).value as real / m.config.probeAmount as real
  }

  /** The rate, held between 0.01 and 1.05. */
  ghost function Gain(m: Market, u: Pubkey, v: Pubkey, e: PoolEdge): real
    requires m.provider.probeQuote(e.poolAddress, e.dex, u, v, m.config.probeAmount).Some?
  {
    var rate := Rate(m, u, v, e);
    if rate < 0.01 then 0.01 else if rate > 1.05 then 1.05 else rate
  }

  /** The liquidity in units of the baseline, held between the configured limits. */
  ghost function Depth(m: Market, e: PoolEdge): real {
    var share := e.liquidityUsd / m.config.liquidityBaselineUsd;
    if share < m.config.minLiquidityScore then m.config.minLiquidityScore
    else if share > m.config.maxLiquidityScore then m.config.maxLiquidityScore
    else share
  }

  ghost function Worth(m: Market, u: Pubkey, v: Pubkey, e: PoolEdge): real
    requires m.provider.probeQuote(e.poolAddress, e.dex, u, v, m.config.probeAmount).Some?
  {
    Gain(m, u, v, e) * Depth(m, e)
  }

  lemma RankedPoolMeans(m: Market, u: Pubkey, v: Pubkey, r: RankedPool)
    requires m.RankSingle(r.edge, u, v) == Some(r)
    ensures m.provider.probeQuote(r.edge.poolAddress, r.edge.dex, u, v, m.config.probeAmount).Some?
    ensures r.edgeRatio == Rate(m, u, v, r.edge) && ClampEdgeRatio(r.edgeRatio) == Gain(m, u, v, r.edge)
    ensures r.liquidityScore == Depth(m, r.edge)
  {
  }

  lemma ScoreMeans(m: Market, u: Pubkey, v: Pubkey, r: RankedPool)
    requires m.RankSingle(r.edge, u, v) == Some(r)
    ensures m.provider.probeQuote(r.edge.poolAddress, r.edge.dex, u, v, m.config.probeAmount).Some?
    ensures r.CombinedScore() == Worth(m, u, v, r.edge)
  {
    RankedPoolMeans(m, u, v, r);
    hide Market.RankSingle, ClampEdgeRatio, Gain, Depth, Rate;
  }

  ghost predicate DistinctRanked(ranked: seq<RankedPool>) {
    forall i, j :: 0 <= i < j < |ranked| ==> ranked[i].edge.poolAddress != ranked[j].edge.poolAddress
  }

  lemma SingleEdge(m: Market, e: PoolEdge, u: Pubkey, v: Pubkey)
    ensures m.RankSingle(e, u, v).Some? ==> m.RankSingle(e, u, v).value.edge == e
  {
  }

  lemma {:induction false} RankListDistinct(m: Market, pools: seq<PoolEdge>, u: Pubkey, v: Pubkey)
    requires DistinctAddresses(pools)
    ensures DistinctRanked(m.RankList(pools, u, v))
  {
    if pools != [] {
      hide Market.RankSingle;
      var init, last := pools[..|pools| - 1], pools[|pools| - 1];
      RankListDistinct(m, init, u, v);
      RankListMembers(m, init, u, v);
      SingleEdge(m, last, u, v);
      var r := m.RankList(init, u, v);
      forall i | 0 <= i < |r|
        ensures r[i].edge.poolAddress != last.poolAddress
      {
        assert r[i] in r;
        var k :| 0 <= k < |init| && init[k] == r[i].edge;
        assert pools[k] == init[k];
      }
      forall x: RankedPool | x.edge == last
        ensures DistinctRanked(r + [x])
      {
      }
    }
  }

  /** No pool is ranked twice. */
  lemma RankedOnce(s: GraphState, m: Market, u: Pubkey, v: Pubkey)
    requires Valid(s) && m.adj == s.adj
    ensures DistinctRanked(m.Ranked(u, v))
  {
    hide Market.RankSingle, Market.RankList, BetterPool, MoreLiquid, Sort;
    assert ListOk(PoolsBetween(s.adj, u, v), s.index, u, v);
    var pools := Sort(PoolsBetween(m.adj, u, v), MoreLiquid);
    DistinctKeysPermuted(PoolsBetween(m.adj, u, v), pools, (e: PoolEdge) => e.poolAddress);
    RankListDistinct(m, pools, u, v);
    SortedRanked(m.RankList(pools, u, v));
  }

  lemma SortedRanked(ranked: seq<RankedPool>)
    requires DistinctRanked(ranked)
    ensures DistinctRanked(Sort(ranked, BetterPool))
  {
    DistinctKeysPermuted(ranked, Sort(ranked, BetterPool), (r: RankedPool) => r.edge.poolAddress);
  }

  /** Main result: a pair's ranking is its usable pools, once each, by gain times depth. */
  lemma RankedLaw(s: GraphState, m: Market, u: Pubkey, v: Pubkey)
    requires Valid(s) && m.adj == s.adj
    ensures var ranked := m.Ranked(u, v);
            && (forall r :: r in ranked ==> Usable(m, u, v, r.edge) && r.edgeRatio == Rate(m, u, v, r.edge) && r.liquidityScore == Depth(m, r.edge))
            && (forall e :: Usable(m, u, v, e) ==> exists r :: r in ranked && r.edge == e)
            && (forall i, j :: 0 <= i < j < |ranked| ==>
                  ranked[i].edge.poolAddress != ranked[j].edge.poolAddress && InWorthOrder(m, u, v, ranked[i].edge, ranked[j].edge))
  {
    hide Market.Ranked, Market.RankSingle, Valid, Rate, Depth, Worth, RankedPool.CombinedScore;
    RankedOnce(s, m, u, v);
    RankedMembers(m, u, v);
    var ranked := m.Ranked(u, v);
    forall r | r in ranked
      ensures Usable(m, u, v, r.edge) && r.edgeRatio == Rate(m, u, v, r.edge) && r.liquidityScore == Depth(m, r.edge)
    {
      RankedPoolMeans(m, u, v, r);
    }
    forall e | Usable(m, u, v, e)
      ensures exists r :: r in ranked && r.edge == e
    {
      QuotedIsRanked(m, u, v, e);
      assert m.RankSingle(e, u, v).value in ranked;
    }
    forall i, j | 0 <= i < j < |ranked|
      ensures InWorthOrder(m, u, v, ranked[i].edge, ranked[j].edge)
    {
      assert ranked[i] in ranked && ranked[j] in ranked;
      ScoreMeans(m, u, v, ranked[i]);
      ScoreMeans(m, u, v, ranked[j]);
      assert BetterPool(ranked[i], ranked[j]);
    }
  }

  /** `e` is worth at least as much as `e'`. */
  ghost predicate InWorthOrder(m: Market, u: Pubkey, v: Pubkey, e: PoolEdge, e': PoolEdge) {
    && m.provider.probeQuote(e.poolAddress, e.dex, u, v, m.config.probeAmount).Some?
    && m.provider.probeQuote(e'.poolAddress, e'.dex, u, v, m.config.probeAmount).Some?
    && Worth(m, u, v, e) >= Worth(m, u, v, e')
  }

  lemma QuotedIsRanked(m: Market, u: Pubkey, v: Pubkey, e: PoolEdge)
    requires m.provider.probeQuote(e.poolAddress, e.dex, u, v, m.config.probeAmount).Some?
    ensures m.RankSingle(e, u, v).Some? && m.RankSingle(e, u, v).value.edge == e
  {
  }

  /** The neighbors of a token come in the order of their best pools' worth. */
  lemma NeighborOrderLaw(m: Market, u: Pubkey, results: Ranking)
    requires Ranks(results, m, u)
    ensures forall i, j :: 0 <= i < j < |results| ==>
              && results[i].1 != [] && results[j].1 != []
              && Usable(m, u, results[i].0, results[i].1[0].edge) && Usable(m, u, results[j].0, results[j].1[0].edge)
              && Worth(m, u, results[i].0, results[i].1[0].edge) >= Worth(m, u, results[j].0, results[j].1[0].edge)
  {
    hide Market.Ranked, Market.RankSingle, Worth, RankedPool.CombinedScore;
    forall i, j | 0 <= i < j < |results|
      ensures && results[i].1 != [] && results[j].1 != []
              && Usable(m, u, results[i].0, results[i].1[0].edge) && Usable(m, u, results[j].0, results[j].1[0].edge)
              && Worth(m, u, results[i].0, results[i].1[0].edge) >= Worth(m, u, results[j].0, results[j].1[0].edge)
    {
      BestOf(m, u, results[i].0);
      BestOf(m, u, results[j].0);
      assert BetterNeighbor(results[i], results[j]);
    }
  }

  lemma BestOf(m: Market, u: Pubkey, v: Pubkey)
    ensures var ranked := m.Ranked(u, v);
            ranked != [] ==> Usable(m, u, v, ranked[0].edge) && ranked[0].CombinedScore() == Worth(m, u, v, ranked[0].edge)
                             && ranked[0].edgeRatio == Rate(m, u, v, ranked[0].edge)
                             && ClampEdgeRatio(ranked[0].edgeRatio) == Gain(m, u, v, ranked[0].edge)
                             && ranked[0].liquidityScore == Depth(m, ranked[0].edge)
  {
    hide Market.Ranked, Market.RankSingle, Worth, Gain, Depth, Rate, RankedPool.CombinedScore;
    RankedMembers(m, u, v);
    var ranked := m.Ranked(u, v);
    if ranked != [] {
      assert ranked[0] in ranked;
      ScoreMeans(m, u, v, ranked[0]);
      RankedPoolMeans(m, u, v, ranked[0]);
    }
  }

  /** The ratios a ranking raises the cache by are the gains of the usable pools. */
  lemma RatioSeenLaw(m: Market, u: Pubkey, tokens: set<Pubkey>, x: real)
    ensures RatioSeen(m, u, tokens, x) <==> exists v, e :: v in tokens && Usable(m, u, v, e) && x == Gain(m, u, v, e)
  {
    hide Market.Ranked, Market.RankSingle, Gain, ClampEdgeRatio;
    if RatioSeen(m, u, tokens, x) {
      var v: Pubkey, r :| v in tokens && r in m.Ranked(u, v) && x == ClampEdgeRatio(r.edgeRatio);
      RankedMembers(m, u, v);
      RankedPoolMeans(m, u, v, r);
      assert Usable(m, u, v, r.edge);
    }
    if v: Pubkey, e :| v in tokens && Usable(m, u, v, e) && x == Gain(m, u, v, e) {
      RankedMembers(m, u, v);
      QuotedIsRanked(m, u, v, e);
      var r := m.RankSingle(e, u, v).value;
      assert r in m.Ranked(u, v);
      RankedPoolMeans(m, u, v, r);
    }
  }

  /** A hop can be taken exactly if some pool of the pair is usable. */
  lemma RankedIffUsable(m: Market, u: Pubkey, v: Pubkey)
    ensures m.Ranked(u, v) != [] <==> exists e :: Usable(m, u, v, e)
  {
    hide Market.Ranked, Market.RankSingle;
    RankedMembers(m, u, v);
    BestOf(m, u, v);
    if e :| Usable(m, u, v, e) {
      QuotedIsRanked(m, u, v, e);
      assert m.RankSingle(e, u, v).value in m.Ranked(u, v);
    }
  }
}
