/**
 How far the search's estimates carry (src/arbitrage/types.rs:150-180, src/arbitrage/pool_ranker.rs:218-241): the
 exact number of hops up to which the reported return is unclamped, and the exact condition under which
 the pruning bound is safe, both over every graph, quote provider and path the search can meet.
 */
module SearchLimits {
  import opened Types
  import opened PoolGraphs
  import opened SearchNodes
  import opened PoolRanking
  import opened SearchPaths
  import opened RingMarket

  // ----- Saturation -----

  /** A cycle of `n` hops that some search on some reachable graph can find. */
  ghost predicate FindableCycle(f: Frame, ops: seq<GraphOp>, p: Path, n: nat) {
    f.market.adj == Run(ops).adj && f.SearchPath(p) && f.Closed(p) && |p| - 1 == n
  }

  /** The ring whose every hop pays 1.05. */
  lemma BestRing(n: nat)
    requires n > 36
    ensures var f := RingFrame(seq(n, i => 21), 20, n);
            FindableCycle(f, RingOps(n), RingPath(n, n), n) && ProfitToReturnBps(f.NodeOf(RingPath(n, n)).profit).1
  {
    hide Market.Ranked, Run, Frame.SearchPath, Reached, ProfitToReturnBps, Frame.HopsOf;
    var outs := seq(n, i => 21);
    var f, p := RingFrame(outs, 20, n), RingPath(n, n);
    RingIsPath(outs, 20, n, n);
    RingHops(outs, 20, n, n);
    var hops := f.HopsOf(p);
    forall i | 0 <= i < |hops|
      ensures hops[i].ratio == MAX_EDGE_RATIO
    {
      assert outs[i] == 21;
    }
    BestProfit(f.Base(), hops);
  }

  lemma BestProfit(base: Pubkey, hops: seq<Hop>)
    requires |hops| > 36 && forall i :: 0 <= i < |hops| ==> hops[i].ratio == MAX_EDGE_RATIO
    ensures ProfitToReturnBps(Reached(base, hops).profit).1
  {
    hide Reached, UpperBound;
    ProfitIsCappedProduct(base, hops);
    Powers(hops, 37);
    assert hops[..|hops|] == hops;
    CappedGrows(hops, 37, |hops|);
  }

  /** After 37 best hops the profit is past 6, or at the cap. */
  lemma Powers(hops: seq<Hop>, n: nat)
    requires n == 37 <= |hops| && forall i :: 0 <= i < |hops| ==> hops[i].ratio == MAX_EDGE_RATIO
    ensures CappedProduct(hops[..n]) > 6.0
  {
    hide OneHop;
    PowerAt36();
    forall k | 0 <= k <= n
      ensures UpperBound(CappedProduct([]), ClampEdgeRatio(MAX_EDGE_RATIO), k) <= MAX_CYCLE_PROFIT_MULTIPLIER
    {
      PowMonoExponent(MAX_EDGE_RATIO, k, 37);
    }
    UniformCompletion([], hops[..n], MAX_EDGE_RATIO);
    assert [] + hops[..n] == hops[..n];
  }

  lemma {:induction false} CappedGrows(hops: seq<Hop>, m: nat, n: nat)
    requires m <= n <= |hops| && (forall i :: 0 <= i < |hops| ==> hops[i].ratio == MAX_EDGE_RATIO)
    ensures CappedProduct(hops[..m]) <= CappedProduct(hops[..n])
  {
    if m < n {
      CappedGrows(hops, m, n - 1);
      assert hops[..n][..n - 1] == hops[..n - 1];
      CappedProductBound(hops[..n - 1]);
      BestHopGains(CappedProduct(hops[..n - 1]));
    }
  }

  lemma BestHopGains(profit: real)
    requires 0.0 < profit <= MAX_CYCLE_PROFIT_MULTIPLIER
    ensures OneHop(profit, MAX_EDGE_RATIO) >= profit
  {
    assert profit * MAX_EDGE_RATIO >= profit;
  }

  /** Main result: no findable cycle of `n` hops has its return clamped if and only if n <= 36. */
  lemma SaturationFreeIffAtMost36Hops(n: nat)
    ensures (forall f, ops, p :: FindableCycle(f, ops, p, n) ==> !ProfitToReturnBps(f.NodeOf(p).profit).1) <==> n <= 36
  {
    hide ProfitToReturnBps, Reached, Frame.SearchPath, Run, Frame.HopsOf;
    if n <= 36 {
      forall f, ops, p | FindableCycle(f, ops, p, n)
        ensures !ProfitToReturnBps(f.NodeOf(p).profit).1
      {
        NoCapWithin36Hops(f.Base(), f.HopsOf(p));
      }
    } else {
      BestRing(n);
    }
  }

  // ----- The pruning bound -----

  /** No usable pool of the market pays more than `best`, clamped. */
  ghost predicate PaysAtMost(m: Market, best: real) {
    forall u, v, r :: r in m.Ranked(u, v) ==> ClampEdgeRatio(r.edgeRatio) <= best
  }

  /**
   A situation of the bound: the search is at the open path `p` with `n` hops left, and the cycle `q` lies
   ahead of it, on a reachable graph whose usable pools pay at most `best`.
   */
  ghost predicate Ahead(f: Frame, ops: seq<GraphOp>, p: Path, q: Path, best: real, n: nat) {
    && f.market.adj == Run(ops).adj && PaysAtMost(f.market, best)
    && f.SearchPath(p) && !f.Closed(p) && f.config.maxHops - (|p| - 1) == n
    && f.SearchPath(q) && f.Closed(q) && |p| < |q| && q[..|p|] == p
  }

  lemma HopsPayAtMost(f: Frame, p: Path, best: real)
    requires f.SearchPath(p) && PaysAtMost(f.market, best)
    ensures forall i :: 0 <= i < |f.HopsOf(p)| ==> ClampEdgeRatio(f.HopsOf(p)[i].ratio) <= best
  {
    hide Market.Ranked, ClampEdgeRatio;
    HopsOfShape(f, p);
    forall i | 0 <= i < |f.HopsOf(p)|
      ensures ClampEdgeRatio(f.HopsOf(p)[i].ratio) <= best
    {
      var ranked := f.market.Ranked(p[i], p[i + 1]);
      assert ranked[0] in ranked;
    }
  }

  /** A covering ratio is safe in every situation. */
  lemma CoveredIsSafe(f: Frame, ops: seq<GraphOp>, p: Path, q: Path, cached: real, best: real, n: nat)
    requires Ahead(f, ops, p, q, best, n) && Covers(cached, best, n)
    ensures f.NodeOf(q).profit <= UpperBound(f.NodeOf(p).profit, cached, n)
  {
    hide Market.Ranked, Run, Frame.SearchPath, Reached, Covers, UpperBound, CappedProduct, ClampEdgeRatio, Frame.HopsOf, PaysAtMost;
    var hops := f.HopsOf(q);
    PathStartsAtBase(f, p);
    PrefixPath(f, q, |p|);
    PathShape(f, q);
    HopsPayAtMost(f, q, best);
    var k := |p| - 1;
    assert hops == hops[..k] + hops[k..];
    CoveredCompletion(hops[..k], hops[k..], cached, best, n);
    ProfitIsCappedProduct(f.Base(), hops[..k]);
    ProfitIsCappedProduct(f.Base(), hops);
  }

  // ----- A situation for every ratio that does not cover -----

  /** A quotable ratio between two reals. */
  lemma RatioBetween(low: real, high: real) returns (out: nat, probe: nat)
    requires low < high && 0.0 <= high
    ensures probe > 0 && low < out as real / probe as real <= high
  {
    var gap := 1.0 / (high - low);
    probe := gap.Floor + 1;
    out := (high * probe as real).Floor;
    var n, x := probe as real, out as real;
    assert n > gap && x <= high * n < x + 1.0;
    assert n * (high - low) > 1.0 by {
      assert gap * (high - low) == 1.0;
      assert (n - gap) * (high - low) > 0.0;
    }
    assert x > low * n;
    DivideBetween(low, high, x, n);
  }

  lemma DivideBetween(low: real, high: real, x: real, n: real)
    requires n > 0.0 && low * n < x <= high * n
    ensures low < x / n <= high
  {
    var q := x / n;
    assert q * n == x;
    assert (q - low) * n > 0.0;
    assert (high - q) * n >= 0.0;
  }

  /** `k` hops that pay nothing, then `m` hops that pay `out`. */
  function LateGain(k: nat, m: nat, out: nat): seq<nat> {
    seq(k + m, i => if i < k then 0 else out)
  }

  lemma LowStart(first: seq<Hop>)
    requires forall i :: 0 <= i < |first| ==> first[i].ratio == 0.0
    ensures CappedProduct(first) == Pow(MIN_EDGE_RATIO, |first|)
  {
    hide OneHop, CappedProduct;
    EmptyProduct();
    forall j | 0 <= j <= |first|
      ensures UpperBound(CappedProduct([]), ClampEdgeRatio(0.0), j) <= MAX_CYCLE_PROFIT_MULTIPLIER
    {
      PowMonoBase(MIN_EDGE_RATIO, 1.0, j);
      PowOfOne(j);
    }
    UniformCompletion([], first, 0.0);
    assert [] + first == first;
  }

  lemma StaysBelowCap(k: nat, ratio: real, j: nat)
    requires MIN_EDGE_RATIO <= ratio <= MAX_EDGE_RATIO && j <= k
    ensures UpperBound(Pow(MIN_EDGE_RATIO, k), ratio, j) <= MAX_CYCLE_PROFIT_MULTIPLIER
  {
    hide Pow;
    var start, power, most := Pow(MIN_EDGE_RATIO, k), Pow(ratio, j), Pow(MAX_EDGE_RATIO, k);
    PowPositive(MIN_EDGE_RATIO, k);
    PowPositive(ratio, j);
    PowMonoBase(ratio, MAX_EDGE_RATIO, j);
    PowMonoExponent(MAX_EDGE_RATIO, j, k);
    MulMono(start, start, power, most);
    TinyStart(k);
  }

  /** The profit at the end of the ring is what it was after the first `k` hops, times a power of the ratio. */
  lemma LateGainProfit(hops: seq<Hop>, k: nat, ratio: real)
    requires k <= |hops| <= 2 * k
    requires forall i :: 0 <= i < |hops| ==> hops[i].ratio == if i < k then 0.0 else ratio
    ensures CappedProduct(hops) == UpperBound(CappedProduct(hops[..k]), ClampEdgeRatio(ratio), |hops| - k)
    ensures CappedProduct(hops[..k]) > 0.0
  {
    hide CappedProduct, UpperBound, Pow;
    var first, rest := hops[..k], hops[k..];
    CappedProductBound(first);
    LowStart(first);
    forall j | 0 <= j <= |rest|
      ensures UpperBound(CappedProduct(first), ClampEdgeRatio(ratio), j) <= MAX_CYCLE_PROFIT_MULTIPLIER
    {
      StaysBelowCap(k, ClampEdgeRatio(ratio), j);
    }
    UniformCompletion(first, rest, ratio);
    assert first + rest == hops;
  }

  lemma EmptyProduct()
    ensures CappedProduct([]) == 1.0
  {
  }

  lemma {:induction false} PowOfOne(n: nat)
    ensures Pow(1.0, n) == 1.0
  {
    if n > 0 {
      PowOfOne(n - 1);
    }
  }

  lemma {:induction false} TinyStart(n: nat)
    ensures 0.0 <= Pow(MIN_EDGE_RATIO, n) * Pow(MAX_EDGE_RATIO, n) <= 1.0
  {
    if n > 0 {
      TinyStart(n - 1);
      var a, b := Pow(MIN_EDGE_RATIO, n - 1), Pow(MAX_EDGE_RATIO, n - 1);
      SwapFactors(a, MIN_EDGE_RATIO, b, MAX_EDGE_RATIO);
    }
  }

  lemma SwapFactors(a: real, x: real, b: real, y: real)
    ensures (a * x) * (b * y) == (a * b) * (x * y)
  {
  }

  lemma LateGainPays(k: nat, m: nat, out: nat, probe: nat, maxHops: nat, best: real)
    requires probe > 0 && MIN_EDGE_RATIO <= best && out as real / probe as real <= best
    ensures PaysAtMost(RingFrame(LateGain(k, m, out), probe, maxHops).market, best)
  {
    hide Market.Ranked, RingFrame;
    var outs, f := LateGain(k, m, out), RingFrame(LateGain(k, m, out), probe, maxHops);
    forall u: Pubkey, v: Pubkey, r | r in f.market.Ranked(u, v)
      ensures ClampEdgeRatio(r.edgeRatio) <= best
    {
      RingRanked(outs, probe, maxHops, u, v);
      assert outs[u] == 0 || outs[u] == out;
    }
  }

  /** The ring that loses on its first `n` hops and gains on the `m` after them. */
  lemma LateGainAhead(m: nat, n: nat, out: nat, probe: nat, best: real)
    requires 1 <= m <= n && probe > 0 && MIN_EDGE_RATIO <= best && out as real / probe as real <= best
    ensures Ahead(RingFrame(LateGain(n, m, out), probe, n + n), RingOps(n + m), RingPath(n + m, n), RingPath(n + m, n + m), best, n)
  {
    hide Market.Ranked, Run, Frame.SearchPath, PaysAtMost;
    var outs := LateGain(n, m, out);
    var f, p, q := RingFrame(outs, probe, n + n), RingPath(n + m, n), RingPath(n + m, n + m);
    assert |outs| == n + m;
    LateGainPays(n, m, out, probe, n + n, best);
    RingIsPath(outs, probe, n + n, n);
    RingIsPath(outs, probe, n + n, n + m);
    assert q[..|p|] == p;
  }

  /** There the bound misses the cycle ahead, if the power of the gain beats the power of the cached ratio. */
  lemma LateGainMissed(m: nat, n: nat, out: nat, probe: nat, cached: real, best: real)
    requires 1 <= m <= n && probe > 0 && MIN_EDGE_RATIO <= best && out as real / probe as real <= best
    requires Pow(ClampEdgeRatio(out as real / probe as real), m) > Pow(cached, n)
    ensures var f, p, q := RingFrame(LateGain(n, m, out), probe, n + n), RingPath(n + m, n), RingPath(n + m, n + m);
            && Ahead(f, RingOps(n + m), p, q, best, n)
            && f.NodeOf(q).profit > UpperBound(f.NodeOf(p).profit, cached, n)
  {
    hide Market.Ranked, Run, Frame.SearchPath, Reached, Frame.HopsOf, CappedProduct, ClampEdgeRatio, PaysAtMost, Pow, RingFrame;
    var outs, ratio := LateGain(n, m, out), out as real / probe as real;
    assert |outs| == n + m;
    var f, p, q := RingFrame(outs, probe, n + n), RingPath(n + m, n), RingPath(n + m, n + m);
    LateGainAhead(m, n, out, probe, best);
    RingHops(outs, probe, n + n, n + m);
    var hops := f.HopsOf(q);
    forall i | 0 <= i < |hops|
      ensures hops[i].ratio == if i < n then 0.0 else ratio
    {
      assert outs[i] == if i < n then 0 else out;
      ZeroQuote(probe);
    }
    LateGainProfit(hops, n, ratio);
    PrefixPath(f, q, |p|);
    ProfitIsCappedProduct(f.Base(), hops);
    ProfitIsCappedProduct(f.Base(), hops[..n]);
    ScaleStrict(CappedProduct(hops[..n]), Pow(cached, n), Pow(ClampEdgeRatio(ratio), m));
  }

  lemma ZeroQuote(probe: nat)
    requires probe > 0
    ensures 0 as real / probe as real == 0.0
  {
  }

  lemma ScaleStrict(profit: real, x: real, y: real)
    requires profit > 0.0 && x < y
    ensures profit * x < profit * y
  {
    MulPositive(profit, y - x);
  }

  /** If the cached ratio does not cover, some quotable ratio up to `best` beats it. */
  lemma SomeGain(cached: real, best: real, n: nat) returns (m: nat, out: nat, probe: nat)
    requires 0.0 <= cached && MIN_EDGE_RATIO <= best <= MAX_EDGE_RATIO && n > 0 && !Covers(cached, best, n)
    ensures 1 <= m <= n && probe > 0 && out as real / probe as real <= best
    ensures Pow(ClampEdgeRatio(out as real / probe as real), m) > Pow(cached, n)
  {
    if best >= 1.0 {
      if cached >= best {
        PowMonoBase(best, cached, n);
      }
      m := n;
      out, probe := RatioBetween(cached, best);
      PowStrictBase(cached, ClampEdgeRatio(out as real / probe as real), n);
    } else {
      m := 1;
      out, probe := RatioBetween(Pow(cached, n), best);
      PowOne(ClampEdgeRatio(out as real / probe as real));
    }
  }

  lemma PowOne(x: real)
    ensures Pow(x, 1) == x
  {
    assert Pow(x, 0) == 1.0;
  }

  /**
   Main result: the bound from one cached ratio is not admissible in general. With `n` hops left and pools
   paying at most `best`, it is at least the profit of every cycle ahead, on every reachable graph and for
   every provider, if and only if the cached ratio covers `best`.
   */
  lemma BoundAdmissibleIff(cached: real, best: real, n: nat)
    requires 0.0 <= cached && MIN_EDGE_RATIO <= best <= MAX_EDGE_RATIO && n > 0
    ensures (forall f, ops, p, q :: Ahead(f, ops, p, q, best, n) ==> f.NodeOf(q).profit <= UpperBound(f.NodeOf(p).profit, cached, n))
            <==> Covers(cached, best, n)
  {
    hide Run, Frame.SearchPath, Frame.NodeOf, Covers, UpperBound, PaysAtMost, RingFrame;
    if Covers(cached, best, n) {
      forall f, ops, p, q | Ahead(f, ops, p, q, best, n)
        ensures f.NodeOf(q).profit <= UpperBound(f.NodeOf(p).profit, cached, n)
      {
        CoveredIsSafe(f, ops, p, q, cached, best, n);
      }
    } else {
      var m, out, probe := SomeGain(cached, best, n);
      LateGainMissed(m, n, out, probe, cached, best);
    }
  }

  /** Where the market can gain, covering is just being the largest ratio. */
  lemma CoversIffAtLeast(cached: real, best: real, n: nat)
    requires 0.0 <= cached && 1.0 <= best && n > 0
    ensures Covers(cached, best, n) <==> cached >= best
  {
    if cached >= best {
      PowMonoBase(best, cached, n);
    } else {
      PowStrictBase(cached, best, n);
    }
  }
}
