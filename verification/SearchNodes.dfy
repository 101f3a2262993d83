/**
 Search nodes and cycles (src/arbitrage/types.rs): how profit compounds along a path, when the
 profit cap and the saturation of the reported return can bite, and how good the pruning bound is.
 Ratios and prices are exact reals.
 */
module SearchNodes {
  import opened Types
  import opened Wrappers
  import opened Reals

  const MAX_CYCLE_PROFIT_MULTIPLIER: real := 10.0
  const MIN_EDGE_RATIO: real := 0.01
  const MAX_EDGE_RATIO: real := 1.05
  const MIN_RETURN_BPS: int := -10_000
  const MAX_RETURN_BPS: int := 50_000
  /** 2 to the power -52. */
  const F64_EPSILON: real := 0.0000000000000002220446049250313080847263336181640625
  /** The ratio assumed for a token that was never ranked (src/arbitrage/pool_ranker.rs). */
  const OPTIMISTIC_RATIO: real := 1.5

  function Clamp(x: real, lo: real, hi: real): real
    requires lo <= hi
  {
    if x < lo then lo else if x > hi then hi else x
  }

  function ClampEdgeRatio(ratio: real): (r: real)
    ensures MIN_EDGE_RATIO <= r <= MAX_EDGE_RATIO
    ensures MIN_EDGE_RATIO <= ratio <= MAX_EDGE_RATIO <==> r == ratio
  {
    Clamp(ratio, MIN_EDGE_RATIO, MAX_EDGE_RATIO)
  }

  /** `f64::round`: half away from zero. */
  function Round(x: real): int {
    if x >= 0.0 then (x + 0.5).Floor else -((0.5 - x).Floor)
  }

  /** The reported return in basis points, and whether it had to be clamped. */
  function ProfitToReturnBps(profit: real): (int, bool) {
    var raw := (profit - 1.0) * 10_000.0;
    var saturated := raw < MIN_RETURN_BPS as real || raw > MAX_RETURN_BPS as real;
    var bps := Round(raw);
    (if bps < MIN_RETURN_BPS then MIN_RETURN_BPS else if bps > MAX_RETURN_BPS then MAX_RETURN_BPS else bps,
     saturated)
  }

  datatype RankedPool = RankedPool(edge: PoolEdge, edgeRatio: real, liquidityScore: real) {
    function CombinedScore(): real {
      ClampEdgeRatio(edgeRatio) * liquidityScore
    }
  }

  datatype ArbCycle = ArbCycle(
    path: seq<Pubkey>, pools: seq<seq<PoolEdge>>, estimatedReturnBps: int, minLiquidityUsd: Option<real>,
    profitMultiplierCapped: bool, returnBpsSaturated: bool, edgeRatioClamped: bool)

  /** `minLiquidity` is None where the code has `f64::MAX`: no hop taken yet. */
  datatype SearchNode = SearchNode(
    token: Pubkey, path: seq<Pubkey>, pools: seq<seq<PoolEdge>>, profit: real, score: real, depth: nat,
    minLiquidity: Option<real>, visited: set<Pubkey>, profitMultiplierCapped: bool, edgeRatioClamped: bool)

  function Start(base: Pubkey): SearchNode {
    SearchNode(base, [base], [], 1.0, 1.0, 0, None, {base}, false, false)
  }

  /** What one hop contributes: the next token, the pools to try, and the best pool's figures. */
  datatype Hop = Hop(next: Pubkey, alternatives: seq<PoolEdge>, ratio: real, liquidityScore: real, liquidityUsd: real)

  /** The profit after one more hop, before the cap. */
  function Uncapped(profit: real, ratio: real): real {
    profit * ClampEdgeRatio(ratio)
  }

  function Expand(node: SearchNode, hop: Hop): SearchNode {
    var clampedRatio := ClampEdgeRatio(hop.ratio);
    var uncapped := Uncapped(node.profit, hop.ratio);
    var profit := Min(uncapped, MAX_CYCLE_PROFIT_MULTIPLIER);
    SearchNode(
      hop.next,
      node.path + [hop.next],
      node.pools + [hop.alternatives],
      profit,
      profit * hop.liquidityScore,
      node.depth + 1,
      Some(if node.minLiquidity.Some? then Min(node.minLiquidity.value, hop.liquidityUsd) else hop.liquidityUsd),
      node.visited + {hop.next},
      node.profitMultiplierCapped || uncapped > MAX_CYCLE_PROFIT_MULTIPLIER,
      node.edgeRatioClamped || Abs(clampedRatio - hop.ratio) > F64_EPSILON)
  }

  function ToArbCycle(node: SearchNode): Option<ArbCycle> {
    if |node.path| < 3 || node.path[0] != node.path[|node.path| - 1] then None
    else
      var (bps, saturated) := ProfitToReturnBps(node.profit);
      Some(ArbCycle(node.path, node.pools, bps, node.minLiquidity, node.profitMultiplierCapped,
                    saturated || node.profitMultiplierCapped, node.edgeRatioClamped))
  }

  /** The node reached from base by a list of hops. */
  function Reached(base: Pubkey, hops: seq<Hop>): SearchNode {
    if hops == [] then Start(base) else Expand(Reached(base, hops[..|hops| - 1]), hops[|hops| - 1])
  }

  // ----- Shape of a reached node -----

  lemma {:induction false} ReachedShape(base: Pubkey, hops: seq<Hop>)
    ensures var n := Reached(base, hops);
            && n.depth == |hops| && |n.path| == |hops| + 1 && |n.pools| == |hops|
            && n.path[0] == base && n.token == n.path[|hops|]
            && (forall i :: 0 <= i < |hops| ==> n.path[i + 1] == hops[i].next && n.pools[i] == hops[i].alternatives)
            && n.visited == (set t | t in n.path)
  {
    if hops != [] {
      ReachedShape(base, hops[..|hops| - 1]);
    }
  }

  /** The hop's ratio was moved by the clamp. */
  predicate Clamps(hop: Hop) {
    Abs(ClampEdgeRatio(hop.ratio) - hop.ratio) > F64_EPSILON
  }

  /** The flag of a node says whether the clamp moved some hop's ratio. */
  lemma {:induction false} ReachedFlag(base: Pubkey, hops: seq<Hop>)
    ensures Reached(base, hops).edgeRatioClamped <==> exists i :: 0 <= i < |hops| && Clamps(hops[i])
  {
    if hops != [] {
      var init := hops[..|hops| - 1];
      ReachedFlag(base, init);
      assert forall i :: 0 <= i < |init| ==> init[i] == hops[i];
      FlagStep(Reached(base, init), hops[|hops| - 1]);
      ReachedStep(base, hops);
      hide Clamps, Expand;
      assert Clamps(hops[|hops| - 1]) ==> exists i :: 0 <= i < |hops| && Clamps(hops[i]);
    }
  }

  lemma FlagStep(node: SearchNode, hop: Hop)
    ensures Expand(node, hop).edgeRatioClamped <==> node.edgeRatioClamped || Clamps(hop)
  {
    hide ClampEdgeRatio;
  }

  /** Rounding goes to a nearest integer, and away from zero on ties. */
  lemma RoundLaw(x: real)
    ensures -0.5 <= Round(x) as real - x <= 0.5
    ensures Round(x) as real - x == 0.5 ==> x > 0.0
    ensures Round(x) as real - x == -0.5 ==> x < 0.0
  {
  }

  /** The least liquidity on the path is carried along exactly. */
  lemma {:induction false} ReachedLiquidity(base: Pubkey, hops: seq<Hop>)
    requires hops != []
    ensures var l := Reached(base, hops).minLiquidity;
            && l.Some?
            && (forall i :: 0 <= i < |hops| ==> l.value <= hops[i].liquidityUsd)
            && (exists i :: 0 <= i < |hops| && l.value == hops[i].liquidityUsd)
  {
    var last := |hops| - 1;
    if last > 0 {
      ReachedLiquidity(base, hops[..last]);
      var i :| 0 <= i < last && Reached(base, hops[..last]).minLiquidity.value == hops[..last][i].liquidityUsd;
      assert hops[..last][i] == hops[i];
    }
    assert Reached(base, hops).minLiquidity.value <= hops[last].liquidityUsd;
    assert forall i :: 0 <= i < last ==> hops[..last][i] == hops[i];
  }

  // ----- Compounding -----

  function Pow(x: real, n: nat): real {
    if n == 0 then 1.0 else Pow(x, n - 1) * x
  }

  /** The plain product of the clamped ratios of the hops. */
  function Product(hops: seq<Hop>): real {
    if hops == [] then 1.0 else Product(hops[..|hops| - 1]) * ClampEdgeRatio(hops[|hops| - 1].ratio)
  }

  /** Products of ordered non-negative factors are ordered. */
  lemma MulMono(a: real, b: real, x: real, y: real)
    requires 0.0 <= a <= b && 0.0 <= x <= y
    ensures 0.0 <= a * x <= b * y
  {
    assert a * x <= b * x;
    assert b * x <= b * y;
  }

  lemma MulPositive(a: real, b: real)
    requires 0.0 < a && 0.0 < b
    ensures 0.0 < a * b
  {
  }

  lemma {:induction false} PowPositive(x: real, n: nat)
    requires x > 0.0
    ensures Pow(x, n) > 0.0
  {
    if n > 0 {
      PowPositive(x, n - 1);
      MulPositive(Pow(x, n - 1), x);
    }
  }

  lemma {:induction false} PowMonoBase(x: real, y: real, n: nat)
    requires 0.0 <= x <= y
    ensures 0.0 <= Pow(x, n) <= Pow(y, n)
  {
    if n > 0 {
      PowMonoBase(x, y, n - 1);
      MulMono(Pow(x, n - 1), Pow(y, n - 1), x, y);
    }
  }

  lemma PowStrictBase(x: real, y: real, n: nat)
    requires 0.0 <= x < y && n > 0
    ensures Pow(x, n) < Pow(y, n)
  {
    PowMonoBase(x, y, n - 1);
    PowPositive(y, n - 1);
    MulMono(Pow(x, n - 1), Pow(y, n - 1), x, x);
    MulPositive(Pow(y, n - 1), y - x);
  }

  lemma {:induction false} PowMonoExponent(x: real, m: nat, n: nat)
    requires x >= 1.0 && m <= n
    ensures Pow(x, m) <= Pow(x, n)
  {
    if m < n {
      PowMonoExponent(x, m, n - 1);
      PowPositive(x, n - 1);
      MulMono(Pow(x, n - 1), Pow(x, n - 1), 1.0, x);
    }
  }

  lemma {:induction false} PowSplit(x: real, m: nat, n: nat)
    ensures Pow(x, m + n) == Pow(x, m) * Pow(x, n)
  {
    if n > 0 {
      PowSplit(x, m, n - 1);
      Reassociate(Pow(x, m), Pow(x, n - 1), x);
    }
  }

  lemma Reassociate(a: real, b: real, c: real)
    ensures a * b * c == a * (b * c)
  {
  }

  /** 1.05 to the 36th stays below 6 and its 37th power passes it: the exact point of saturation. */
  lemma PowerAt36()
    ensures Pow(MAX_EDGE_RATIO, 36) < 6.0 < Pow(MAX_EDGE_RATIO, 37) < 10.0
  {
    var x := MAX_EDGE_RATIO;
    assert Pow(x, 3) == 1.157625 by {
      assert Pow(x, 0) == 1.0;
      assert Pow(x, 1) == 1.05;
      assert Pow(x, 2) == 1.1025;
    }
    PowSplit(x, 3, 3);
    assert 1.34009 < Pow(x, 6) < 1.34010;
    PowSplit(x, 6, 6);
    assert 1.79584 < Pow(x, 12) < 1.79587;
    PowSplit(x, 12, 12);
    assert 3.22504 < Pow(x, 24) < 3.22516;
    PowSplit(x, 24, 12);
    MulMono(3.22504, Pow(x, 24), 1.79584, Pow(x, 12));
    MulMono(Pow(x, 24), 3.22516, Pow(x, 12), 1.79587);
    assert 5.7916 < Pow(x, 36) < 5.793;
  }

  lemma {:induction false} ProductBound(hops: seq<Hop>)
    ensures 0.0 < Product(hops) <= Pow(MAX_EDGE_RATIO, |hops|)
  {
    if hops != [] {
      var init := hops[..|hops| - 1];
      var r := ClampEdgeRatio(hops[|hops| - 1].ratio);
      ProductBound(init);
      MulPositive(Product(init), r);
      MulMono(Product(init), Pow(MAX_EDGE_RATIO, |init|), r, MAX_EDGE_RATIO);
    }
  }

  /** The effect of one hop on the profit field. */
  function OneHop(profit: real, ratio: real): real {
    Min(Uncapped(profit, ratio), MAX_CYCLE_PROFIT_MULTIPLIER)
  }

  lemma OneHopBound(profit: real, product: real, ratio: real)
    requires 0.0 < profit <= product
    ensures 0.0 < OneHop(profit, ratio) <= product * ClampEdgeRatio(ratio)
    ensures OneHop(profit, ratio) <= MAX_CYCLE_PROFIT_MULTIPLIER
  {
    MulPositive(profit, ClampEdgeRatio(ratio));
    MulMono(profit, product, ClampEdgeRatio(ratio), ClampEdgeRatio(ratio));
  }

  /** The profit field alone: a product cut off at the cap after every hop. */
  function CappedProduct(hops: seq<Hop>): real {
    if hops == [] then 1.0 else OneHop(CappedProduct(hops[..|hops| - 1]), hops[|hops| - 1].ratio)
  }

  lemma ReachedStep(base: Pubkey, hops: seq<Hop>)
    requires hops != []
    ensures Reached(base, hops) == Expand(Reached(base, hops[..|hops| - 1]), hops[|hops| - 1])
  {
    hide Expand;
  }

  lemma ExpandProfit(node: SearchNode, hop: Hop)
    ensures Expand(node, hop).profit == OneHop(node.profit, hop.ratio)
    ensures Expand(node, hop).profitMultiplierCapped
            <==> node.profitMultiplierCapped || Uncapped(node.profit, hop.ratio) > MAX_CYCLE_PROFIT_MULTIPLIER
  {
    hide ClampEdgeRatio, Uncapped;
  }

  lemma {:induction false} ProfitIsCappedProduct(base: Pubkey, hops: seq<Hop>)
    ensures Reached(base, hops).profit == CappedProduct(hops)
  {
    hide Expand, OneHop;
    if hops != [] {
      ReachedStep(base, hops);
      ExpandProfit(Reached(base, hops[..|hops| - 1]), hops[|hops| - 1]);
      ProfitIsCappedProduct(base, hops[..|hops| - 1]);
    }
  }

  lemma {:induction false} CappedProductBound(hops: seq<Hop>)
    ensures 0.0 < CappedProduct(hops) <= Product(hops)
    ensures CappedProduct(hops) <= MAX_CYCLE_PROFIT_MULTIPLIER
  {
    hide OneHop;
    if hops != [] {
      var init := hops[..|hops| - 1];
      CappedProductBound(init);
      OneHopBound(CappedProduct(init), Product(init), hops[|hops| - 1].ratio);
    }
  }

  lemma ProductStep(hops: seq<Hop>)
    requires hops != []
    ensures Product(hops) == Uncapped(Product(hops[..|hops| - 1]), hops[|hops| - 1].ratio)
  {
    hide ClampEdgeRatio;
  }

  lemma {:induction false} UncappedProfit(base: Pubkey, hops: seq<Hop>)
    requires !Reached(base, hops).profitMultiplierCapped
    ensures Reached(base, hops).profit == Product(hops)
  {
    hide Expand, Uncapped;
    if hops != [] {
      ProductStep(hops);
      ReachedStep(base, hops);
      ExpandProfit(Reached(base, hops[..|hops| - 1]), hops[|hops| - 1]);
      UncappedProfit(base, hops[..|hops| - 1]);
    }
  }

  /** On every path: profit is positive, never above the product of the clamped ratios, and equal to it
      unless the cap has struck; the product is at most 1.05 to the number of hops. */
  lemma Compounding(base: Pubkey, hops: seq<Hop>)
    ensures var n := Reached(base, hops);
            && 0.0 < n.profit <= Product(hops) <= Pow(MAX_EDGE_RATIO, |hops|)
            && n.profit <= MAX_CYCLE_PROFIT_MULTIPLIER
            && (!n.profitMultiplierCapped ==> n.profit == Product(hops))
  {
    ProfitIsCappedProduct(base, hops);
    CappedProductBound(hops);
    ProductBound(hops);
    if !Reached(base, hops).profitMultiplierCapped {
      UncappedProfit(base, hops);
    }
  }

  /** The cap strikes only where some prefix of the path has already passed 10. */
  lemma {:induction false} UncappedWhileProductsSmall(base: Pubkey, hops: seq<Hop>)
    requires forall k :: 0 <= k <= |hops| ==> Product(hops[..k]) <= MAX_CYCLE_PROFIT_MULTIPLIER
    ensures !Reached(base, hops).profitMultiplierCapped
  {
    hide Expand, Uncapped, ClampEdgeRatio;
    if hops != [] {
      var init := hops[..|hops| - 1];
      assert forall k :: 0 <= k <= |init| ==> init[..k] == hops[..k];
      UncappedWhileProductsSmall(base, init);
      UncappedProfit(base, init);
      ProductStep(hops);
      ReachedStep(base, hops);
      ExpandProfit(Reached(base, init), hops[|hops| - 1]);
      assert hops[..|hops|] == hops;
    }
  }

  /** Up to 36 hops neither the cap nor the clamp of the reported return can ever take effect. */
  lemma NoCapWithin36Hops(base: Pubkey, hops: seq<Hop>)
    requires |hops| <= 36
    ensures var n := Reached(base, hops);
            && !n.profitMultiplierCapped && n.profit == Product(hops)
            && !ProfitToReturnBps(n.profit).1
            && ProfitToReturnBps(n.profit).0 == Round((n.profit - 1.0) * 10_000.0)
  {
    PowerAt36();
    forall k | 0 <= k <= |hops|
      ensures Product(hops[..k]) <= MAX_CYCLE_PROFIT_MULTIPLIER
    {
      Compounding(base, hops[..k]);
      PowMonoExponent(MAX_EDGE_RATIO, k, 36);
    }
    UncappedWhileProductsSmall(base, hops);
    Compounding(base, hops);
    PowMonoExponent(MAX_EDGE_RATIO, |hops|, 36);
  }

  /** A profit at or above the threshold multiplier is reported as at least the threshold. */
  lemma ThresholdSurvivesRounding(profit: real, minProfitBps: int)
    requires profit >= 1.0 + minProfitBps as real / 10_000.0
    ensures minProfitBps <= MAX_RETURN_BPS ==> ProfitToReturnBps(profit).0 >= minProfitBps
  {
    var raw := (profit - 1.0) * 10_000.0;
    assert raw >= minProfitBps as real;
    RoundKeepsIntegers(raw, minProfitBps);
  }

  lemma RoundKeepsIntegers(x: real, k: int)
    requires x >= k as real
    ensures Round(x) >= k
  {
    if x < 0.0 {
      assert 0.5 - x <= -k as real + 0.5;
    }
  }

  // ----- The pruning bound -----

  function UpperBound(profit: real, ratio: real, remaining: nat): real {
    profit * Pow(ratio, remaining)
  }

  lemma OneMoreHop(profit: real, power: real, now: real, ratio: real, m: real)
    requires 0.0 <= now <= profit * power && ClampEdgeRatio(ratio) <= m
    ensures OneHop(now, ratio) <= profit * (power * m)
  {
    assert OneHop(now, ratio) <= now * ClampEdgeRatio(ratio);
    ScaleBoth(profit, power, now, ClampEdgeRatio(ratio), m);
  }

  lemma ScaleBoth(profit: real, power: real, now: real, r: real, m: real)
    requires 0.0 <= now <= profit * power && 0.0 <= r <= m
    ensures now * r <= profit * (power * m)
  {
    MulMono(now, profit * power, r, m);
    Reassociate(profit, power, m);
  }

  /** Continuing a path multiplies its profit by at most `m` per hop, if no hop's ratio exceeds `m`. */
  lemma {:induction false} CompletionBound(hops: seq<Hop>, more: seq<Hop>, m: real)
    requires m >= 0.0 && forall i :: 0 <= i < |more| ==> ClampEdgeRatio(more[i].ratio) <= m
    ensures CappedProduct(hops + more) <= UpperBound(CappedProduct(hops), m, |more|)
  {
    hide OneHop, ClampEdgeRatio;
    if more == [] {
      assert hops + more == hops;
    } else {
      var init, last := more[..|more| - 1], more[|more| - 1];
      assert (hops + more)[..|hops + more| - 1] == hops + init;
      CompletionBound(hops, init, m);
      CappedProductBound(hops + init);
      OneMoreHop(CappedProduct(hops), Pow(m, |init|), CappedProduct(hops + init), last.ratio, m);
    }
  }

  lemma BoundGrows(profit: real, ratio: real, k: nat, n: nat)
    requires 0.0 <= profit && 1.0 <= ratio && k <= n
    ensures UpperBound(profit, ratio, k) <= UpperBound(profit, ratio, n)
  {
    PowMonoExponent(ratio, k, n);
    PowPositive(ratio, k);
    MulMono(profit, profit, Pow(ratio, k), Pow(ratio, n));
  }

  /** At a never-ranked token the bound is safe: no completion within the remaining hops beats it. */
  lemma OptimisticBoundIsAdmissible(base: Pubkey, hops: seq<Hop>, more: seq<Hop>, remaining: nat)
    requires |more| <= remaining
    ensures Reached(base, hops + more).profit <= UpperBound(Reached(base, hops).profit, OPTIMISTIC_RATIO, remaining)
  {
    CompletionBound(hops, more, OPTIMISTIC_RATIO);
    CappedProductBound(hops);
    BoundGrows(CappedProduct(hops), OPTIMISTIC_RATIO, |more|, remaining);
    ProfitIsCappedProduct(base, hops);
    ProfitIsCappedProduct(base, hops + more);
  }

  lemma ZeroHopsBound(profit: real, ratio: real)
    ensures UpperBound(profit, ratio, 0) == profit
  {
  }

  lemma UniformStep(profit: real, ratio: real, n: nat)
    requires n > 0 && UpperBound(profit, ClampEdgeRatio(ratio), n) <= MAX_CYCLE_PROFIT_MULTIPLIER
    ensures OneHop(UpperBound(profit, ClampEdgeRatio(ratio), n - 1), ratio) == UpperBound(profit, ClampEdgeRatio(ratio), n)
  {
    hide ClampEdgeRatio;
    Reassociate(profit, Pow(ClampEdgeRatio(ratio), n - 1), ClampEdgeRatio(ratio));
  }

  /** Hops of one ratio compound to a power of it, as long as the cap is not reached. */
  lemma {:induction false} UniformCompletion(hops: seq<Hop>, more: seq<Hop>, ratio: real)
    requires forall i :: 0 <= i < |more| ==> more[i].ratio == ratio
    requires forall k :: 0 <= k <= |more| ==>
               UpperBound(CappedProduct(hops), ClampEdgeRatio(ratio), k) <= MAX_CYCLE_PROFIT_MULTIPLIER
    ensures CappedProduct(hops + more) == UpperBound(CappedProduct(hops), ClampEdgeRatio(ratio), |more|)
  {
    hide OneHop, UpperBound, ClampEdgeRatio;
    if more == [] {
      assert hops + more == hops;
      ZeroHopsBound(CappedProduct(hops), ClampEdgeRatio(ratio));
    } else {
      var init := more[..|more| - 1];
      UniformCompletion(hops, init, ratio);
      var all := hops + more;
      assert all[..|all| - 1] == hops + init && all[|all| - 1].ratio == ratio;
      UniformStep(CappedProduct(hops), ratio, |more|);
    }
  }

  /** At most `n` hops, none with a clamped ratio above `best`. */
  ghost predicate Within(more: seq<Hop>, best: real, n: nat) {
    |more| <= n && forall i :: 0 <= i < |more| ==> ClampEdgeRatio(more[i].ratio) <= best
  }

  /**
   When the bound covers all that may lie ahead: its power of the cached ratio reaches the best completion
   over ratios up to `best`, which takes all remaining hops if they gain and only one if they lose.
   */
  predicate Covers(cached: real, best: real, remaining: nat) {
    Pow(cached, remaining) >= if best >= 1.0 then Pow(best, remaining) else best
  }

  lemma PowLast(x: real, n: nat)
    requires n > 0
    ensures Pow(x, n) == Pow(x, n - 1) * x
  {
  }

  lemma {:induction false} PowAtMostOne(x: real, n: nat)
    requires 0.0 <= x <= 1.0
    ensures 0.0 <= Pow(x, n) <= 1.0
  {
    if n > 0 {
      PowLast(x, n);
      PowAtMostOne(x, n - 1);
      hide Pow;
      MulMono(Pow(x, n - 1), 1.0, x, 1.0);
    }
  }

  lemma PowBelowBase(x: real, n: nat)
    requires 0.0 <= x <= 1.0 && n > 0
    ensures 0.0 <= Pow(x, n) <= x
  {
    PowLast(x, n);
    PowAtMostOne(x, n - 1);
    FactorShrinks(Pow(x, n - 1), x, Pow(x, n));
  }

  lemma FactorShrinks(a: real, x: real, b: real)
    requires 0.0 <= a <= 1.0 && 0.0 <= x && b == a * x
    ensures 0.0 <= b <= x
  {
    MulMono(a, a, x, x);
    assert (1.0 - a) * x >= 0.0;
  }

  /** A covering ratio makes the bound safe for every continuation of at least one hop. */
  lemma CoveredCompletion(hops: seq<Hop>, more: seq<Hop>, cached: real, best: real, remaining: nat)
    requires more != [] && Within(more, best, remaining) && Covers(cached, best, remaining)
    ensures CappedProduct(hops + more) <= UpperBound(CappedProduct(hops), cached, remaining)
  {
    hide CappedProduct;
    var m := |more|;
    assert ClampEdgeRatio(more[0].ratio) <= best;
    hide ClampEdgeRatio;
    CompletionBound(hops, more, best);
    CappedProductBound(hops);
    if best >= 1.0 {
      PowMonoExponent(best, m, remaining);
    } else {
      PowBelowBase(best, m);
    }
    PowPositive(best, m);
    MulMono(CappedProduct(hops), CappedProduct(hops), Pow(best, m), Pow(cached, remaining));
  }
}
