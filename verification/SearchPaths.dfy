/**
 The paths a cycle search may generate, and what a search run is accountable for
 (src/arbitrage/cycle_finder.rs). A path determines its search node, because graph and quotes are
 fixed during a search; so a run can be described by the paths it generated, discarded and pruned.
 */
module SearchPaths {
  import opened Types
  import opened Wrappers
  import opened PoolGraphs
  import opened PoolGraphObject
  import opened SearchNodes
  import opened PoolRanking
  import opened RankingLaws

  datatype CycleFinderConfig = CycleFinderConfig(
    beamWidth: nat, maxHops: nat, minProfitBps: int, maxResults: nat, baseMint: Pubkey, poolAlternatives: nat)

  /** A targeted search: cycles must pass a seed, and expansion stays in `allowed`. */
  datatype Target = Target(seeds: seq<Pubkey>, allowed: set<Pubkey>)

  type Path = seq<Pubkey>

  /** Everything that stays fixed during one search. */
  datatype Frame = Frame(market: Market, config: CycleFinderConfig, target: Option<Target>) {

    function Base(): Pubkey {
      config.baseMint
    }

    function MinMultiplier(): real {
      1.0 + config.minProfitBps as real / 10_000.0
    }

    predicate Closed(p: Path) {
      |p| > 1 && p[|p| - 1] == Base()
    }

    /** The first `n` pools of a ranking. */
    static function TopEdges(ranked: seq<RankedPool>, n: nat): (r: seq<PoolEdge>)
      ensures |r| == if n <= |ranked| then n else |ranked|
      ensures forall i :: 0 <= i < |r| ==> r[i] == ranked[i].edge
    {
      var k := if n <= |ranked| then n else |ranked|;
      seq(k, i requires 0 <= i < |ranked| => ranked[i].edge)
    }

    function HopOf(u: Pubkey, v: Pubkey): Hop
      requires market.Ranked(u, v) != []
    {
      var ranked := market.Ranked(u, v);
      Hop(v, TopEdges(ranked, config.poolAlternatives), ranked[0].edgeRatio, ranked[0].liquidityScore,
          ranked[0].edge.liquidityUsd)
    }

    /** A pruned or closed path aside, this is when the search extends `p` by `v`. */
    ghost predicate CanStep(p: Path, v: Pubkey)
      requires p != []
    {
      && |p| - 1 < config.maxHops && !Closed(p)
      && config.poolAlternatives > 0 && market.Ranked(p[|p| - 1], v) != []
      && (if v == Base() then |p| > 1 else v !in p)
      && (v == Base() || target.None? || v in target.value.allowed)
    }

    ghost predicate SearchPath(p: Path) {
      |p| >= 1 && p[0] == Base()
      && (|p| > 1 ==> SearchPath(p[..|p| - 1]) && CanStep(p[..|p| - 1], p[|p| - 1]))
    }

    ghost function HopsOf(p: Path): (hops: seq<Hop>)
      requires SearchPath(p)
      ensures |hops| == |p| - 1
    {
      hide Market.Ranked, Closed;
      if |p| == 1 then []
      else
        assert CanStep(p[..|p| - 1], p[|p| - 1]);
        HopsOf(p[..|p| - 1]) + [HopOf(p[|p| - 2], p[|p| - 1])]
    }

    ghost function NodeOf(p: Path): SearchNode
      requires SearchPath(p)
    {
      Reached(Base(), HopsOf(p))
    }

    ghost predicate NodeOk(n: SearchNode) {
      SearchPath(n.path) && n == NodeOf(n.path)
    }

    /** A finished path the search must report: profitable enough and, if targeted, through a seed. */
    ghost predicate Qualifies(p: Path)
      requires SearchPath(p)
    {
      && Closed(p) && NodeOf(p).profit >= MinMultiplier()
      && (target.Some? ==> exists i :: 0 <= i < |p| && p[i] in target.value.seeds)
    }
  }

  // ----- Paths and their nodes -----

  lemma {:induction false} HopsOfShape(f: Frame, p: Path)
    requires f.SearchPath(p)
    ensures forall i :: 0 <= i < |p| - 1 ==>
              f.market.Ranked(p[i], p[i + 1]) != [] && f.HopsOf(p)[i] == f.HopOf(p[i], p[i + 1])
  {
    hide Market.Ranked, Frame.HopOf;
    if |p| > 1 {
      var init := p[..|p| - 1];
      HopsOfShape(f, init);
      forall i | 0 <= i < |p| - 1
        ensures f.market.Ranked(p[i], p[i + 1]) != [] && f.HopsOf(p)[i] == f.HopOf(p[i], p[i + 1])
      {
        if i < |p| - 2 {
          assert init[i] == p[i] && init[i + 1] == p[i + 1];
        }
      }
    }
  }

  lemma {:induction false} PathShape(f: Frame, p: Path)
    requires f.SearchPath(p)
    ensures |p| - 1 <= f.config.maxHops
    ensures forall i :: 0 < i < |p| - 1 ==> p[i] != f.Base()
    ensures forall i, j :: 0 <= i < j < |p| - 1 ==> p[i] != p[j]
    ensures p[|p| - 1] != f.Base() ==> forall i :: 0 <= i < |p| - 1 ==> p[i] != p[|p| - 1]
    ensures f.Closed(p) ==> |p| >= 3
    ensures |p| > 1 ==> f.config.poolAlternatives > 0
  {
    hide Market.Ranked;
    if |p| > 1 {
      var init := p[..|p| - 1];
      PathShape(f, init);
      assert forall i :: 0 <= i < |p| - 1 ==> init[i] == p[i];
      assert !f.Closed(init);
    }
  }

  /** The node of a path: its fields are the path's own. */
  lemma NodeShape(f: Frame, p: Path)
    requires f.SearchPath(p)
    ensures var n := f.NodeOf(p);
            && n.path == p && n.token == p[|p| - 1] && n.depth == |p| - 1 && n.visited == (set t | t in p)
            && |n.pools| == |p| - 1
            && (forall i :: 0 <= i < |p| - 1 ==>
                  f.market.Ranked(p[i], p[i + 1]) != [] && n.pools[i] == f.HopOf(p[i], p[i + 1]).alternatives)
  {
    hide Market.Ranked, Reached;
    HopsOfShape(f, p);
    ReachedShape(f.Base(), f.HopsOf(p));
    var n := f.NodeOf(p);
    assert n.path == p by {
      forall i | 0 <= i < |p|
        ensures n.path[i] == p[i]
      {
        if i > 0 {
          assert n.path[i - 1 + 1] == f.HopsOf(p)[i - 1].next;
          assert f.HopsOf(p)[i - 1] == f.HopOf(p[i - 1], p[i - 1 + 1]);
        }
      }
    }
  }

  lemma PathStartsAtBase(f: Frame, p: Path)
    requires f.SearchPath(p)
    ensures |p| >= 1 && p[0] == f.Base()
  {
  }

  lemma StepIsPath(f: Frame, p: Path, v: Pubkey)
    requires f.SearchPath(p) && f.CanStep(p, v)
    ensures f.SearchPath(p + [v])
  {
    hide Frame.CanStep;
    assert (p + [v])[..|p|] == p;
  }

  lemma NodeStep(f: Frame, p: Path, v: Pubkey)
    requires f.SearchPath(p) && f.CanStep(p, v)
    ensures f.SearchPath(p + [v]) && f.NodeOf(p + [v]) == Expand(f.NodeOf(p), f.HopOf(p[|p| - 1], v))
  {
    hide Market.Ranked, Frame.HopOf, Expand, Frame.CanStep;
    var longer := p + [v];
    assert longer[..|longer| - 1] == p;
    StepIsRanked(f, p, v);
    var hops := f.HopsOf(longer);
    assert hops == f.HopsOf(p) + [f.HopOf(p[|p| - 1], v)];
    assert hops[..|hops| - 1] == f.HopsOf(p);
    ReachedStep(f.Base(), hops);
  }

  lemma StepIsRanked(f: Frame, p: Path, v: Pubkey)
    requires p != [] && f.CanStep(p, v)
    ensures f.market.Ranked(p[|p| - 1], v) != []
  {
    hide Market.Ranked;
  }

  /** A prefix of a search path is a search path, and its hops are a prefix of the hops. */
  lemma {:induction false} PrefixPath(f: Frame, p: Path, k: nat)
    requires f.SearchPath(p) && 1 <= k <= |p|
    ensures f.SearchPath(p[..k]) && f.HopsOf(p[..k]) == f.HopsOf(p)[..k - 1]
    ensures k < |p| ==> f.CanStep(p[..k], p[k])
  {
    hide Market.Ranked, Frame.HopOf, Frame.CanStep;
    if k == |p| {
      assert p[..k] == p;
    } else {
      var init := p[..|p| - 1];
      PrefixPath(f, init, k);
      assert init[..k] == p[..k];
      StepIsRanked(f, init, p[|p| - 1]);
    }
  }

  // ----- Well-formed cycles -----

  ghost function CycleOf(f: Frame, p: Path): ArbCycle
    requires f.SearchPath(p) && f.Closed(p)
  {
    NodeShape(f, p);
    PathShape(f, p);
    ToArbCycle(f.NodeOf(p)).value
  }

  /** One hop of a reported cycle: usable pools joining it, worth most first, and none left out is worth more. */
  ghost predicate HopOk(f: Frame, u: Pubkey, v: Pubkey, pools: seq<PoolEdge>) {
    && 1 <= |pools| <= f.config.poolAlternatives
    && (forall e :: e in pools ==> Usable(f.market, u, v, e) && Joins(e, u, v))
    && (forall i, j :: 0 <= i < j < |pools| ==>
          pools[i].poolAddress != pools[j].poolAddress && InWorthOrder(f.market, u, v, pools[i], pools[j]))
    && (forall e, p :: Usable(f.market, u, v, e) && e !in pools && p in pools ==>
          |pools| == f.config.poolAlternatives && InWorthOrder(f.market, u, v, p, e))
  }

  /** Hop `i` has a primary pool, and it is usable. */
  ghost predicate Runs(m: Market, path: Path, pools: seq<seq<PoolEdge>>, i: int) {
    0 <= i < |pools| < |path| && pools[i] != [] && Usable(m, path[i], path[i + 1], pools[i][0])
  }

  ghost function HopGainOf(m: Market, path: Path, pools: seq<seq<PoolEdge>>, i: nat): real
    requires Runs(m, path, pools, i)
  {
    Gain(m, path[i], path[i + 1], pools[i][0])
  }

  /** The product of the gains of the first `n` hops' primary pools. */
  ghost function CycleGain(m: Market, path: Path, pools: seq<seq<PoolEdge>>, n: nat): real
    requires forall i :: 0 <= i < n ==> Runs(m, path, pools, i)
  {
    if n == 0 then 1.0 else CycleGain(m, path, pools, n - 1) * HopGainOf(m, path, pools, n - 1)
  }

  /** The rate of hop `i`'s primary pool lies outside the limits. */
  ghost predicate OffLimits(m: Market, path: Path, pools: seq<seq<PoolEdge>>, i: int) {
    && Runs(m, path, pools, i)
    && var rate, gain := Rate(m, path[i], path[i + 1], pools[i][0]), Gain(m, path[i], path[i + 1], pools[i][0]);
    gain - rate > F64_EPSILON || rate - gain > F64_EPSILON
  }

  /** The least liquidity among the primary pools of the hops. */
  ghost predicate IsLeastLiquidity(least: Option<real>, pools: seq<seq<PoolEdge>>) {
    && least.Some?
    && (forall i :: 0 <= i < |pools| ==> pools[i] != [] && least.value <= pools[i][0].liquidityUsd)
    && (exists i :: 0 <= i < |pools| && pools[i] != [] && least.value == pools[i][0].liquidityUsd)
  }

  ghost predicate WellFormed(f: Frame, c: ArbCycle) {
    && |c.path| >= 3 && c.path[0] == f.Base() && c.path[|c.path| - 1] == f.Base()
    && |c.pools| == |c.path| - 1 && 2 <= |c.pools| <= f.config.maxHops
    && (forall i :: 0 < i < |c.path| - 1 ==> c.path[i] != f.Base())
    && (forall i, j :: 0 < i < j < |c.path| - 1 ==> c.path[i] != c.path[j])
    && (forall i :: 0 <= i < |c.pools| ==> HopOk(f, c.path[i], c.path[i + 1], c.pools[i]))
    && (f.config.minProfitBps <= MAX_RETURN_BPS ==> c.estimatedReturnBps >= f.config.minProfitBps)
    && (f.target.Some? ==> exists i :: 0 <= i < |c.path| && c.path[i] in f.target.value.seeds)
    && IsLeastLiquidity(c.minLiquidityUsd, c.pools)
    && f.SearchPath(c.path)
    && (forall i :: 0 <= i < |c.pools| ==> Runs(f.market, c.path, c.pools, i))
    && (c.edgeRatioClamped <==> exists i :: 0 <= i < |c.pools| && OffLimits(f.market, c.path, c.pools, i))
    && (f.config.maxHops <= 36 ==>
          && !c.profitMultiplierCapped && !c.returnBpsSaturated
          && c.estimatedReturnBps == Round((CycleGain(f.market, c.path, c.pools, |c.pools|) - 1.0) * 10_000.0))
  }

  lemma HopIsOk(f: Frame, s: GraphState, u: Pubkey, v: Pubkey)
    requires f.market.adj == s.adj && Valid(s) && f.market.Ranked(u, v) != [] && f.config.poolAlternatives > 0
    ensures HopOk(f, u, v, f.HopOf(u, v).alternatives)
    ensures f.HopOf(u, v).alternatives[0].liquidityUsd == f.HopOf(u, v).liquidityUsd
    ensures f.HopOf(u, v).alternatives[0] == f.market.Ranked(u, v)[0].edge
  {
    hide Market.Ranked, InWorthOrder, Usable, Valid, Rate, Depth, Joins;
    var ranked := f.market.Ranked(u, v);
    var pools := f.HopOf(u, v).alternatives;
    RankedLaw(s, f.market, u, v);
    forall e | e in pools
      ensures Usable(f.market, u, v, e) && Joins(e, u, v)
    {
      var i :| 0 <= i < |pools| && pools[i] == e;
      assert ranked[i] in ranked;
      UsableJoins(s, f.market, u, v, e);
    }
    forall e, p | Usable(f.market, u, v, e) && e !in pools && p in pools
      ensures |pools| == f.config.poolAlternatives && InWorthOrder(f.market, u, v, p, e)
    {
      LeftOut(f, u, v, ranked, pools, e, p);
    }
  }

  lemma UsableJoins(s: GraphState, m: Market, u: Pubkey, v: Pubkey, e: PoolEdge)
    requires Valid(s) && m.adj == s.adj && Usable(m, u, v, e)
    ensures Joins(e, u, v)
  {
    assert ListOk(PoolsBetween(s.adj, u, v), s.index, u, v);
  }

  /** A usable pool outside the top is ranked below all of it. */
  lemma LeftOut(f: Frame, u: Pubkey, v: Pubkey, ranked: seq<RankedPool>, pools: seq<PoolEdge>, e: PoolEdge, p: PoolEdge)
    requires pools == Frame.TopEdges(ranked, f.config.poolAlternatives) && e !in pools && p in pools
    requires exists r :: r in ranked && r.edge == e
    requires forall i, j :: 0 <= i < j < |ranked| ==> InWorthOrder(f.market, u, v, ranked[i].edge, ranked[j].edge)
    ensures |pools| == f.config.poolAlternatives && InWorthOrder(f.market, u, v, p, e)
  {
    hide InWorthOrder;
    var r :| r in ranked && r.edge == e;
    var j :| 0 <= j < |ranked| && ranked[j] == r;
    var i :| 0 <= i < |pools| && pools[i] == p;
    assert forall k :: 0 <= k < |pools| ==> pools[k] == ranked[k].edge && pools[k] in pools;
    assert |pools| <= j;
  }

  /** The final gate of the search never rejects: every ranked hop already has its quote. */
  lemma GateNeverRejects(f: Frame, s: GraphState, p: Path, i: nat)
    requires f.market.adj == s.adj && Valid(s) && f.SearchPath(p) && i < |p| - 1
    ensures var pools := f.NodeOf(p).pools;
            i < |pools| && pools[i] != [] && f.market.Quoted(pools[i][0], p[i], p[i + 1])
  {
    hide Market.Ranked, Frame.HopOf, Frame.NodeOf;
    NodeShape(f, p);
    PathShape(f, p);
    HopIsOk(f, s, p[i], p[i + 1]);
    assert f.NodeOf(p).pools[i][0] in f.NodeOf(p).pools[i];
  }

  lemma CycleLiquidity(f: Frame, s: GraphState, p: Path)
    requires f.market.adj == s.adj && Valid(s) && f.SearchPath(p) && f.Closed(p)
    ensures IsLeastLiquidity(CycleOf(f, p).minLiquidityUsd, CycleOf(f, p).pools)
  {
    hide Market.Ranked, Reached, Frame.HopOf;
    NodeShape(f, p);
    PathShape(f, p);
    HopsOfShape(f, p);
    var hops := f.HopsOf(p);
    ReachedLiquidity(f.Base(), hops);
    forall i | 0 <= i < |p| - 1
      ensures f.NodeOf(p).pools[i] != [] && f.NodeOf(p).pools[i][0].liquidityUsd == hops[i].liquidityUsd
    {
      HopIsOk(f, s, p[i], p[i + 1]);
    }
    var k :| 0 <= k < |hops| && Reached(f.Base(), hops).minLiquidity.value == hops[k].liquidityUsd;
    assert f.NodeOf(p).pools[k][0].liquidityUsd == hops[k].liquidityUsd;
  }

  /** The gains of the primary pools are the clamped ratios of the hops. */
  lemma HopGain(f: Frame, s: GraphState, p: Path, i: nat)
    requires f.market.adj == s.adj && Valid(s) && f.SearchPath(p) && i < |p| - 1
    ensures var pools := f.NodeOf(p).pools;
            && |pools| == |p| - 1 && |f.HopsOf(p)| == |p| - 1 && Runs(f.market, p, pools, i)
            && ClampEdgeRatio(f.HopsOf(p)[i].ratio) == HopGainOf(f.market, p, pools, i)
            && f.HopsOf(p)[i].liquidityScore == Depth(f.market, pools[i][0])
            && (Clamps(f.HopsOf(p)[i]) <==> OffLimits(f.market, p, pools, i))
  {
    hide Market.Ranked, Frame.NodeOf, Gain, Rate, Depth, ClampEdgeRatio, Valid, Frame.SearchPath;
    NodeShape(f, p);
    StepsAreRanked(f, p);
    HopsOfShape(f, p);
    HopIsOk(f, s, p[i], p[i + 1]);
    BestOf(f.market, p[i], p[i + 1]);
  }

  lemma StepsAreRanked(f: Frame, p: Path)
    requires f.SearchPath(p)
    ensures |p| > 1 ==> f.config.poolAlternatives > 0
  {
    PathShape(f, p);
  }

  lemma {:induction false} ProductIsGain(f: Frame, s: GraphState, p: Path, n: nat)
    requires f.market.adj == s.adj && Valid(s) && f.SearchPath(p) && n <= |p| - 1
    ensures forall i :: 0 <= i < n ==> Runs(f.market, p, f.NodeOf(p).pools, i)
    ensures Product(f.HopsOf(p)[..n]) == CycleGain(f.market, p, f.NodeOf(p).pools, n)
  {
    hide Frame.NodeOf, Frame.HopsOf, HopGainOf, Runs, ClampEdgeRatio, Valid, Frame.SearchPath, Clamps, OffLimits, Depth;
    if n > 0 {
      ProductIsGain(f, s, p, n - 1);
      HopGain(f, s, p, n - 1);
      assert f.HopsOf(p)[..n][..n - 1] == f.HopsOf(p)[..n - 1];
    }
  }

  /** The flag says that some hop's rate was out of limits. */
  lemma CycleFlag(f: Frame, s: GraphState, p: Path)
    requires f.market.adj == s.adj && Valid(s) && f.SearchPath(p) && f.Closed(p)
    ensures var c := CycleOf(f, p);
            && c.path == p && c.pools == f.NodeOf(p).pools
            && (c.edgeRatioClamped <==> exists i :: 0 <= i < |c.pools| && OffLimits(f.market, p, c.pools, i))
  {
    hide Market.Ranked, Reached, Frame.HopsOf, ClampEdgeRatio, Valid, ProfitToReturnBps, Frame.SearchPath, OffLimits, Clamps, Runs;
    PathStartsAtBase(f, p);
    NodeShape(f, p);
    PathShape(f, p);
    ReachedFlag(f.Base(), f.HopsOf(p));
    forall i | 0 <= i < |p| - 1
      ensures Clamps(f.HopsOf(p)[i]) <==> OffLimits(f.market, p, f.NodeOf(p).pools, i)
    {
      HopGain(f, s, p, i);
    }
  }

  /** Every qualifying path makes a well-formed cycle. */
  lemma CycleIsWellFormed(f: Frame, s: GraphState, p: Path)
    requires f.market.adj == s.adj && Valid(s) && f.SearchPath(p) && f.Qualifies(p)
    ensures WellFormed(f, CycleOf(f, p))
  {
    hide Market.Ranked, Reached, Frame.HopOf, IsLeastLiquidity, ProfitToReturnBps, Valid, HopOk, OffLimits, Runs, HopGainOf;
    NodeShape(f, p);
    PathShape(f, p);
    CycleLiquidity(f, s, p);
    CycleFlag(f, s, p);
    ProductIsGain(f, s, p, |p| - 1);
    assert f.HopsOf(p)[..|p| - 1] == f.HopsOf(p);
    var c := CycleOf(f, p);
    forall i | 0 <= i < |c.pools|
      ensures HopOk(f, c.path[i], c.path[i + 1], c.pools[i])
    {
      HopIsOk(f, s, p[i], p[i + 1]);
    }
    ThresholdSurvivesRounding(f.NodeOf(p).profit, f.config.minProfitBps);
    if f.config.maxHops <= 36 {
      NoCapWithin36Hops(f.Base(), f.HopsOf(p));
    }
  }

  // ----- Profit and score in terms of quotes -----

  /** The path before its last hop. */
  lemma LastHop(f: Frame, p: Path)
    requires f.SearchPath(p) && |p| > 1
    ensures f.SearchPath(p[..|p| - 1]) && |f.HopsOf(p)| == |p| - 1
    ensures f.NodeOf(p) == Expand(f.NodeOf(p[..|p| - 1]), f.HopsOf(p)[|p| - 2])
  {
    hide Market.Ranked, Frame.HopOf, Frame.CanStep, Reached, Expand;
    PrefixPath(f, p, |p| - 1);
    ReachedStep(f.Base(), f.HopsOf(p));
  }

  /** The primary pool of the last hop of a path. */
  ghost function LastPool(f: Frame, s: GraphState, p: Path): PoolEdge
    requires f.market.adj == s.adj && Valid(s) && f.SearchPath(p) && |p| > 1
  {
    HopGain(f, s, p, |p| - 2);
    f.NodeOf(p).pools[|p| - 2][0]
  }

  lemma LastPoolMeans(f: Frame, s: GraphState, p: Path)
    requires f.market.adj == s.adj && Valid(s) && f.SearchPath(p) && |p| > 1
    ensures var e, hop := LastPool(f, s, p), f.HopsOf(p)[|p| - 2];
            && Usable(f.market, p[|p| - 2], p[|p| - 1], e)
            && ClampEdgeRatio(hop.ratio) == Gain(f.market, p[|p| - 2], p[|p| - 1], e) && hop.liquidityScore == Depth(f.market, e)
  {
    hide Market.Ranked, Valid, Depth, Gain, Usable, ClampEdgeRatio, OffLimits, Clamps, Frame.SearchPath, Frame.NodeOf, Frame.HopsOf;
    HopGain(f, s, p, |p| - 2);
  }

  /** Each hop multiplies profit by its gain, up to ten, and the score weighs it with the depth of its pool. */
  lemma NodeLaw(f: Frame, s: GraphState, p: Path)
    requires f.market.adj == s.adj && Valid(s) && f.SearchPath(p) && |p| > 1
    ensures f.SearchPath(p[..|p| - 1]) && Usable(f.market, p[|p| - 2], p[|p| - 1], LastPool(f, s, p))
    ensures var grown := f.NodeOf(p[..|p| - 1]).profit * Gain(f.market, p[|p| - 2], p[|p| - 1], LastPool(f, s, p));
            f.NodeOf(p).profit == if grown <= 10.0 then grown else 10.0
    ensures f.NodeOf(p).score == f.NodeOf(p).profit * Depth(f.market, LastPool(f, s, p))
  {
    hide Valid, Depth, Gain, ClampEdgeRatio, Frame.SearchPath, Frame.NodeOf, Frame.HopsOf, Expand, LastPool;
    LastPoolMeans(f, s, p);
    LastHop(f, p);
    ExpandLaw(f.NodeOf(p[..|p| - 1]), f.HopsOf(p)[|p| - 2], Gain(f.market, p[|p| - 2], p[|p| - 1], LastPool(f, s, p)),
              Depth(f.market, LastPool(f, s, p)));
  }

  /** The search starts at base with profit and score one. */
  lemma StartLaw(f: Frame)
    ensures f.SearchPath([f.Base()]) && f.NodeOf([f.Base()]).profit == 1.0 && f.NodeOf([f.Base()]).score == 1.0
  {
    assert f.HopsOf([f.Base()]) == [];
  }

  lemma ExpandLaw(node: SearchNode, hop: Hop, gain: real, depth: real)
    requires ClampEdgeRatio(hop.ratio) == gain && hop.liquidityScore == depth
    ensures var grown := node.profit * gain;
            Expand(node, hop).profit == if grown <= 10.0 then grown else 10.0
    ensures Expand(node, hop).score == Expand(node, hop).profit * depth
  {
    hide ClampEdgeRatio;
    UncappedIs(node.profit, hop.ratio);
    hide Uncapped;
  }

  lemma UncappedIs(profit: real, ratio: real)
    ensures Uncapped(profit, ratio) == profit * ClampEdgeRatio(ratio)
  {
    hide ClampEdgeRatio;
  }

  /** Up to 36 hops a closed path must be reported exactly if the gains make the threshold and a target is met. */
  lemma QualifiesLaw(f: Frame, s: GraphState, p: Path)
    requires f.market.adj == s.adj && Valid(s) && f.SearchPath(p) && f.Closed(p) && |p| - 1 <= 36
    ensures forall i :: 0 <= i < |p| - 1 ==> Runs(f.market, p, f.NodeOf(p).pools, i)
    ensures f.Qualifies(p) <==>
            && CycleGain(f.market, p, f.NodeOf(p).pools, |p| - 1) >= 1.0 + f.config.minProfitBps as real / 10_000.0
            && (f.target.Some? ==> exists t :: t in p && t in f.target.value.seeds)
  {
    hide Market.Ranked, Valid, Runs, CycleGain, Frame.SearchPath, Frame.HopsOf, ProfitToReturnBps;
    ProductIsGain(f, s, p, |p| - 1);
    assert f.HopsOf(p)[..|p| - 1] == f.HopsOf(p);
    NoCapWithin36Hops(f.Base(), f.HopsOf(p));
  }
}
