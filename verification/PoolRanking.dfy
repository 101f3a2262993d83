/** Probe-quote ranking of the pools out of a token (src/arbitrage/pool_ranker.rs). */
module PoolRanking {
  import opened Types
  import opened Wrappers
  import opened Sorting
  import opened Collections
  import opened PoolGraphs
  import opened PoolGraphObject
  import opened SearchNodes

  datatype RankerConfig = RankerConfig(
    probeAmount: nat, liquidityBaselineUsd: real, minLiquidityScore: real, maxLiquidityScore: real)

  /** Settings under which no division by zero and no inverted clamp can occur; the witness is the default. */
  type ValidRankerConfig = c: RankerConfig |
    c.probeAmount > 0 && c.liquidityBaselineUsd != 0.0 && c.minLiquidityScore <= c.maxLiquidityScore
    witness RankerConfig(10_000_000, 100_000.0, 0.3, 1.5)

  /** A quote provider whose answers do not change during a search. */
  datatype QuoteProvider = QuoteProvider(
    probeQuote: (Pubkey, DexType, Pubkey, Pubkey, nat) -> Option<nat>,
    quoteReady: Pubkey -> bool)

  /** Everything a ranking depends on. */
  datatype Market = Market(adj: Adjacency, provider: QuoteProvider, config: ValidRankerConfig) {

    predicate Quoted(edge: PoolEdge, u: Pubkey, v: Pubkey) {
      provider.probeQuote(edge.poolAddress, edge.dex, u, v, config.probeAmount).Some?
    }

    function RankSingle(edge: PoolEdge, u: Pubkey, v: Pubkey): Option<RankedPool> {
      var out :- provider.probeQuote(edge.poolAddress, edge.dex, u, v, config.probeAmount);
      Some(RankedPool(
        edge,
        out as real / config.probeAmount as real,
        Clamp(edge.liquidityUsd / config.liquidityBaselineUsd, config.minLiquidityScore, config.maxLiquidityScore)))
    }

    /** Ready and quoted pools, in the given order. */
    function RankList(pools: seq<PoolEdge>, u: Pubkey, v: Pubkey): seq<RankedPool> {
      if pools == [] then []
      else
        var init, last := pools[..|pools| - 1], pools[|pools| - 1];
        RankList(init, u, v)
        + if provider.quoteReady(last.poolAddress) && RankSingle(last, u, v).Some?
          then [RankSingle(last, u, v).value] else []
    }

    /** The usable pools from `u` to `v`, best combined score first. */
    function Ranked(u: Pubkey, v: Pubkey): seq<RankedPool> {
      Sort(RankList(Sort(PoolsBetween(adj, u, v), MoreLiquid), u, v), BetterPool)
    }
  }

  predicate BetterPool(a: RankedPool, b: RankedPool) {
    a.CombinedScore() >= b.CombinedScore()
  }

  predicate BetterNeighbor(a: (Pubkey, seq<RankedPool>), b: (Pubkey, seq<RankedPool>)) {
    BestScore(a.1) >= BestScore(b.1)
  }

  function BestScore(pools: seq<RankedPool>): real {
    if pools == [] then 0.0 else pools[0].CombinedScore()
  }

  lemma {:induction false} RankListMembers(m: Market, pools: seq<PoolEdge>, u: Pubkey, v: Pubkey)
    ensures forall r :: r in m.RankList(pools, u, v) <==>
              r.edge in pools && m.provider.quoteReady(r.edge.poolAddress) && m.RankSingle(r.edge, u, v) == Some(r)
  {
    if pools != [] {
      RankListMembers(m, pools[..|pools| - 1], u, v);
      assert pools == pools[..|pools| - 1] + [pools[|pools| - 1]];
    }
  }

  /** A hop's ranking holds exactly the stored, ready, quoted pools of the pair, best first. */
  lemma RankedMembers(m: Market, u: Pubkey, v: Pubkey)
    ensures forall r :: r in m.Ranked(u, v) <==>
              r.edge in PoolsBetween(m.adj, u, v) && m.provider.quoteReady(r.edge.poolAddress)
              && m.RankSingle(r.edge, u, v) == Some(r)
    ensures Sorted(m.Ranked(u, v), BetterPool)
  {
    var pools := Sort(PoolsBetween(m.adj, u, v), MoreLiquid);
    SortMembers(PoolsBetween(m.adj, u, v), MoreLiquid);
    RankListMembers(m, pools, u, v);
    SortMembers(m.RankList(pools, u, v), BetterPool);
    BetterIsTotal();
    SortSorted(m.RankList(pools, u, v), BetterPool);
  }

  lemma BetterIsTotal()
    ensures TotalPreorder(BetterPool) && TotalPreorder(BetterNeighbor)
  {
    hide RankedPool.CombinedScore;
  }

  lemma NoPoolsNoRanking(m: Market, u: Pubkey, v: Pubkey)
    requires PoolsBetween(m.adj, u, v) == []
    ensures m.Ranked(u, v) == []
  {
  }

  type Ranking = seq<(Pubkey, seq<RankedPool>)>

  ghost predicate Lists(results: Ranking, v: Pubkey) {
    exists i :: 0 <= i < |results| && results[i].0 == v
  }

  /** `results` holds each of `tokens` that has a usable pool exactly once, with its full ranking. */
  ghost predicate RanksTokens(results: Ranking, m: Market, u: Pubkey, tokens: set<Pubkey>) {
    && (forall i, j :: 0 <= i < j < |results| ==> results[i].0 != results[j].0)
    && (forall i :: 0 <= i < |results| ==>
          results[i].0 in tokens && results[i].1 == m.Ranked(u, results[i].0) && results[i].1 != [])
    && (forall v :: v in tokens && m.Ranked(u, v) != [] ==> Lists(results, v))
    && |results| <= |tokens|
  }

  ghost predicate Ranks(results: Ranking, m: Market, u: Pubkey) {
    RanksTokens(results, m, u, Neighborhood(m.adj, u).Keys) && Sorted(results, BetterNeighbor)
  }

  lemma RanksNone(m: Market, u: Pubkey)
    ensures RanksTokens([], m, u, {})
  {
  }

  lemma RanksStep(results: Ranking, m: Market, u: Pubkey, tokens: set<Pubkey>, v: Pubkey)
    requires RanksTokens(results, m, u, tokens) && v !in tokens
    ensures m.Ranked(u, v) == [] ==> RanksTokens(results, m, u, tokens + {v})
    ensures m.Ranked(u, v) != [] ==> RanksTokens(results + [(v, m.Ranked(u, v))], m, u, tokens + {v})
  {
    hide Market.Ranked;
    if m.Ranked(u, v) != [] {
      var longer := results + [(v, m.Ranked(u, v))];
      forall w | w in tokens + {v} && m.Ranked(u, w) != []
        ensures Lists(longer, w)
      {
        if w == v {
          assert longer[|results|].0 == w;
        } else {
          assert Lists(results, w);
          var i :| 0 <= i < |results| && results[i].0 == w;
          assert longer[i].0 == w;
        }
      }
    }
  }

  lemma RanksPermuted(results: Ranking, other: Ranking, m: Market, u: Pubkey, tokens: set<Pubkey>)
    requires RanksTokens(results, m, u, tokens) && multiset(other) == multiset(results)
    ensures RanksTokens(other, m, u, tokens)
  {
    hide Market.Ranked;
    DistinctKeysPermuted(results, other, (r: (Pubkey, seq<RankedPool>)) => r.0);
    assert |other| == |multiset(other)| == |results|;
    forall i | 0 <= i < |other|
      ensures other[i] in results
    {
      assert other[i] in multiset(results);
    }
    forall v | Lists(results, v)
      ensures Lists(other, v)
    {
      var i :| 0 <= i < |results| && results[i].0 == v;
      assert results[i] in multiset(other);
    }
  }

  // ----- The cached best ratios -----

  type RatioCache = map<Pubkey, real>

  /** Some pool from `u` to one of `tokens` ranks with this clamped ratio. */
  ghost predicate RatioSeen(m: Market, u: Pubkey, tokens: set<Pubkey>, ratio: real) {
    exists v, r :: v in tokens && r in m.Ranked(u, v) && ratio == ClampEdgeRatio(r.edgeRatio)
  }

  /** `ratios` are exactly the clamped ratios of the pools ranked from `u` to `tokens`. */
  ghost predicate RatiosOf(m: Market, u: Pubkey, tokens: set<Pubkey>, ratios: seq<real>) {
    forall x :: x in ratios <==> RatioSeen(m, u, tokens, x)
  }

  lemma RatiosNone(m: Market, u: Pubkey)
    ensures RatiosOf(m, u, {}, [])
  {
  }

  lemma RatiosStep(m: Market, u: Pubkey, tokens: set<Pubkey>, ratios: seq<real>, v: Pubkey, more: seq<real>)
    requires RatiosOf(m, u, tokens, ratios)
    requires forall x :: x in more <==> exists r :: r in m.Ranked(u, v) && x == ClampEdgeRatio(r.edgeRatio)
    ensures RatiosOf(m, u, tokens + {v}, ratios + more)
  {
    hide Market.Ranked;
    forall x
      ensures x in ratios + more <==> RatioSeen(m, u, tokens + {v}, x)
    {
      assert x in ratios <==> RatioSeen(m, u, tokens, x);
      assert x in ratios + more <==> x in ratios || x in more;
    }
  }

  function MaxWith(start: real, ratios: seq<real>): (r: real)
    ensures r >= start && forall x :: x in ratios ==> r >= x
    ensures r == start || r in ratios
  {
    if ratios == [] then start
    else
      var before := MaxWith(start, ratios[..|ratios| - 1]);
      assert ratios == ratios[..|ratios| - 1] + [ratios[|ratios| - 1]];
      if ratios[|ratios| - 1] > before then ratios[|ratios| - 1] else before
  }

  function Raised(cache: RatioCache, token: Pubkey, ratios: seq<real>): RatioCache {
    if ratios == [] then cache
    else cache[token := MaxWith(if token in cache then cache[token] else 0.0, ratios)]
  }

  class PoolRanker {
    const config: ValidRankerConfig
    const provider: QuoteProvider
    var maxEdgeRatio: RatioCache

    constructor (config: ValidRankerConfig, provider: QuoteProvider)
      ensures this.config == config && this.provider == provider && maxEdgeRatio == map[]
    {
      this.config, this.provider, this.maxEdgeRatio := config, provider, map[];
    }

    function MaxEdgeRatioFor(token: Pubkey): real
      reads this
    {
      if token in maxEdgeRatio then maxEdgeRatio[token] else OPTIMISTIC_RATIO
    }

    /** All neighbors with usable pools; raises the cached best ratio of `mint` to the best one seen. */
    method RankPoolsFrom(graph: PoolGraph, mint: Pubkey) returns (results: Ranking, ghost ratios: seq<real>)
      modifies this`maxEdgeRatio
      ensures Ranks(results, Market(graph.adj, provider, config), mint)
      ensures RatiosOf(Market(graph.adj, provider, config), mint, Neighborhood(graph.adj, mint).Keys, ratios)
      ensures maxEdgeRatio == Raised(old(maxEdgeRatio), mint, ratios)
    {
      hide Market.Ranked, RanksTokens, BetterNeighbor, RatiosOf, Raised;
      ghost var m := Market(graph.adj, provider, config);
      var neighbors := graph.Neighbors(mint);
      var unsorted, updates := RankNeighbors(neighbors, mint, m);
      UpdateMaxEdgeRatio(mint, updates);
      results := Sort(unsorted, BetterNeighbor);
      ratios := updates;
      RanksPermuted(unsorted, results, m, mint, Neighborhood(graph.adj, mint).Keys);
      BetterIsTotal();
      SortSorted(unsorted, BetterNeighbor);
    }

    method RankNeighbors(neighbors: seq<(Pubkey, seq<PoolEdge>)>, u: Pubkey, ghost m: Market)
      returns (results: Ranking, ratios: seq<real>)
      requires m.provider == provider && m.config == config && ListsNeighbors(neighbors, m.adj, u)
      ensures RanksTokens(results, m, u, Neighborhood(m.adj, u).Keys)
      ensures RatiosOf(m, u, Neighborhood(m.adj, u).Keys, ratios)
    {
      hide Market.Ranked, RanksTokens, RatiosOf, ListsNeighbors, FirstTokens, Neighborhood;
      results, ratios := [], [];
      RanksNone(m, u);
      RatiosNone(m, u);
      AllNeighborsListed(neighbors, m.adj, u);
      for i := 0 to |neighbors|
        invariant RanksTokens(results, m, u, FirstTokens(neighbors, i))
        invariant RatiosOf(m, u, FirstTokens(neighbors, i), ratios)
      {
        var (v, pools) := neighbors[i];
        ghost var done := FirstTokens(neighbors, i);
        NeighborAt(neighbors, m.adj, u, i);
        var ranked, found := RankPools(pools, u, v, m);
        RankedIs(m, u, v, pools);
        RanksStep(results, m, u, done, v);
        RatiosStep(m, u, done, ratios, v, found);
        ratios := ratios + found;
        if ranked != [] {
          results := results + [(v, ranked)];
        }
      }
    }

    /** Ranks one pool list; also returns the clamped ratios in the order they were found. */
    method RankPools(pools: seq<PoolEdge>, u: Pubkey, v: Pubkey, ghost m: Market)
      returns (ranked: seq<RankedPool>, ratios: seq<real>)
      requires m.provider == provider && m.config == config
      ensures ranked == Sort(m.RankList(pools, u, v), BetterPool)
      ensures forall x :: x in ratios <==> exists r :: r in ranked && x == ClampEdgeRatio(r.edgeRatio)
    {
      hide Market.RankSingle, ClampEdgeRatio;
      ranked, ratios := [], [];
      for i := 0 to |pools|
        invariant ranked == m.RankList(pools[..i], u, v)
        invariant |ratios| == |ranked|
        invariant forall k :: 0 <= k < |ranked| ==> ratios[k] == ClampEdgeRatio(ranked[k].edgeRatio)
      {
        assert pools[..i + 1][..i] == pools[..i];
        if provider.quoteReady(pools[i].poolAddress) {
          var r := Market(map[], provider, config).RankSingle(pools[i], u, v);
          RankSingleIgnoresGraph(m, pools[i], u, v);
          if r.Some? {
            ratios := ratios + [ClampEdgeRatio(r.value.edgeRatio)];
            ranked := ranked + [r.value];
          }
        }
      }
      assert pools[..|pools|] == pools;
      RatiosOfSorted(ranked, ratios);
      ranked := Sort(ranked, BetterPool);
    }

    method UpdateMaxEdgeRatio(token: Pubkey, updates: seq<real>)
      modifies this`maxEdgeRatio
      ensures maxEdgeRatio == Raised(old(maxEdgeRatio), token, updates)
    {
      if updates == [] {
        return;
      }
      var start := if token in maxEdgeRatio then maxEdgeRatio[token] else 0.0;
      var entry := start;
      for i := 0 to |updates|
        invariant entry == MaxWith(start, updates[..i])
      {
        assert updates[..i + 1][..i] == updates[..i];
        if updates[i] > entry {
          entry := updates[i];
        }
      }
      assert updates[..|updates|] == updates;
      maxEdgeRatio := maxEdgeRatio[token := entry];
    }
  }

  ghost function FirstTokens(neighbors: seq<(Pubkey, seq<PoolEdge>)>, n: nat): (r: set<Pubkey>)
    requires n <= |neighbors|
    ensures forall v :: v in r <==> exists k :: 0 <= k < n && neighbors[k].0 == v
  {
    if n == 0 then {} else FirstTokens(neighbors, n - 1) + {neighbors[n - 1].0}
  }

  lemma NeighborAt(neighbors: seq<(Pubkey, seq<PoolEdge>)>, adj: Adjacency, u: Pubkey, i: nat)
    requires ListsNeighbors(neighbors, adj, u) && i < |neighbors|
    ensures var (v, pools) := neighbors[i];
            && v !in FirstTokens(neighbors, i)
            && FirstTokens(neighbors, i + 1) == FirstTokens(neighbors, i) + {v}
            && v in Neighborhood(adj, u) && pools == Sort(Neighborhood(adj, u)[v], MoreLiquid)
  {
  }

  lemma AllNeighborsListed(neighbors: seq<(Pubkey, seq<PoolEdge>)>, adj: Adjacency, u: Pubkey)
    requires ListsNeighbors(neighbors, adj, u)
    ensures FirstTokens(neighbors, |neighbors|) == Neighborhood(adj, u).Keys
    ensures FirstTokens(neighbors, 0) == {}
  {
    hide Sort, MoreLiquid, Neighborhood;
    forall v | v in Neighborhood(adj, u)
      ensures v in FirstTokens(neighbors, |neighbors|)
    {
      assert Mentions(neighbors, v);
    }
  }

  lemma RatiosOfSorted(ranked: seq<RankedPool>, ratios: seq<real>)
    requires |ratios| == |ranked|
    requires forall k :: 0 <= k < |ranked| ==> ratios[k] == ClampEdgeRatio(ranked[k].edgeRatio)
    ensures forall x :: x in ratios <==>
              exists r :: r in Sort(ranked, BetterPool) && x == ClampEdgeRatio(r.edgeRatio)
  {
    hide ClampEdgeRatio, BetterPool;
    SortMembers(ranked, BetterPool);
    forall x | x in ratios
      ensures exists r :: r in Sort(ranked, BetterPool) && x == ClampEdgeRatio(r.edgeRatio)
    {
      var k :| 0 <= k < |ratios| && ratios[k] == x;
      assert ranked[k] in Sort(ranked, BetterPool);
    }
  }

  lemma RankSingleIgnoresGraph(m: Market, edge: PoolEdge, u: Pubkey, v: Pubkey)
    ensures Market(map[], m.provider, m.config).RankSingle(edge, u, v) == m.RankSingle(edge, u, v)
  {
  }

  lemma RankedIs(m: Market, u: Pubkey, v: Pubkey, pools: seq<PoolEdge>)
    requires v in Neighborhood(m.adj, u) && pools == Sort(Neighborhood(m.adj, u)[v], MoreLiquid)
    ensures m.Ranked(u, v) == Sort(m.RankList(pools, u, v), BetterPool)
  {
  }

  lemma RankedTokensAreNeighbors(m: Market, u: Pubkey, v: Pubkey)
    requires m.Ranked(u, v) != []
    ensures v in Neighborhood(m.adj, u)
  {
    if PoolsBetween(m.adj, u, v) == [] {
      NoPoolsNoRanking(m, u, v);
    }
  }

  /** After ranking a token its cached ratio is at least the clamped ratio of every pool out of it. */
  lemma RankedTokenIsCovered(m: Market, before: RatioCache, u: Pubkey, ratios: seq<real>, v: Pubkey, r: RankedPool)
    requires RatiosOf(m, u, Neighborhood(m.adj, u).Keys, ratios) && r in m.Ranked(u, v)
    ensures var after := Raised(before, u, ratios);
            u in after && ClampEdgeRatio(r.edgeRatio) <= after[u]
  {
    RankedTokensAreNeighbors(m, u, v);
    assert RatioSeen(m, u, Neighborhood(m.adj, u).Keys, ClampEdgeRatio(r.edgeRatio));
  }
}
