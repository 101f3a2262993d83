/**
 A family of markets to measure the search by: `n` tokens in a ring, reached by a real run of graph
 operations, with quotes in one direction only. The full ring is the one cycle the search can find.
 */
module RingMarket {
  import opened Types
  import opened Wrappers
  import opened PoolGraphs
  import opened GraphEffects
  import opened PoolGraphObject
  import opened SearchNodes
  import opened PoolRanking
  import opened SearchPaths

  function NextOf(n: nat, u: nat): nat {
    if u + 1 == n then 0 else u + 1
  }

  function RingEdge(n: nat, i: nat): PoolEdge {
    PoolEdge(i, RaydiumCpmm, i, NextOf(n, i), 100_000.0, 0, 0)
  }

  function RingEdges(n: nat): seq<PoolEdge> {
    seq(n, i requires 0 <= i < n => RingEdge(n, i))
  }

  function RingOps(n: nat): seq<GraphOp> {
    [BulkUpsert(RingEdges(n))]
  }

  /** Hop `u` of the ring pays `outs[u]` for the probe amount; there is no quote the other way round. */
  function RingQuotes(outs: seq<nat>): QuoteProvider {
    QuoteProvider(
      (pool: Pubkey, dex: DexType, u: Pubkey, v: Pubkey, amount: nat) => if u < |outs| && v == NextOf(|outs|, u) then Some(outs[u]) else None,
      (pool: Pubkey) => true)
  }

  function RingFrame(outs: seq<nat>, probe: nat, maxHops: nat): Frame
    requires probe > 0
  {
    Frame(Market(Run(RingOps(|outs|)).adj, RingQuotes(outs), RankerConfig(probe, 100_000.0, 0.3, 1.5)),
          CycleFinderConfig(100, maxHops, 0, 10, 0, 3), None)
  }

  function RingPath(n: nat, k: nat): Path {
    seq(k + 1, i requires 0 <= i <= k => if i == n then 0 else i)
  }

  lemma RingJoined(n: nat, u: nat)
    requires u < n
    ensures PoolsBetween(Run(RingOps(n)).adj, u, NextOf(n, u)) != []
  {
    hide PoolsBetween, Run;
    var edges := RingEdges(n);
    LoadPools(edges);
    assert edges[u] in edges && Joins(edges[u], u, NextOf(n, u));
  }

  // ----- Its ranking -----

  lemma RingRanked(outs: seq<nat>, probe: nat, maxHops: nat, u: Pubkey, v: Pubkey)
    requires probe > 0
    ensures var f := RingFrame(outs, probe, maxHops);
            && (f.market.Ranked(u, v) != [] <==> u < |outs| && v == NextOf(|outs|, u))
            && (forall r :: r in f.market.Ranked(u, v) ==>
                  u < |outs| && v == NextOf(|outs|, u) && r.edgeRatio == outs[u] as real / probe as real)
  {
    hide Market.Ranked, Run, Market.RankSingle;
    var m := RingFrame(outs, probe, maxHops).market;
    RankedMembers(m, u, v);
    var ranked := m.Ranked(u, v);
    assert ranked == [] || ranked[0] in ranked;
    forall e: PoolEdge
      ensures m.RankSingle(e, u, v).Some? <==> u < |outs| && v == NextOf(|outs|, u)
      ensures m.RankSingle(e, u, v).Some? ==>
                m.RankSingle(e, u, v).value.edge == e
                && m.RankSingle(e, u, v).value.edgeRatio == outs[u] as real / probe as real
    {
      RingSingle(outs, probe, maxHops, e, u, v);
    }
    if u < |outs| && v == NextOf(|outs|, u) {
      RingJoined(|outs|, u);
      var e := PoolsBetween(m.adj, u, v)[0];
      assert e in PoolsBetween(m.adj, u, v);
      assert m.RankSingle(e, u, v).value in ranked;
    }
  }

  lemma RingSingle(outs: seq<nat>, probe: nat, maxHops: nat, e: PoolEdge, u: Pubkey, v: Pubkey)
    requires probe > 0
    ensures var r := RingFrame(outs, probe, maxHops).market.RankSingle(e, u, v);
            && (r.Some? <==> u < |outs| && v == NextOf(|outs|, u))
            && (r.Some? ==> r.value.edge == e && r.value.edgeRatio == outs[u] as real / probe as real)
  {
    hide Run, Clamp;
  }

  lemma RingSettings(outs: seq<nat>, probe: nat, maxHops: nat)
    requires probe > 0
    ensures var f := RingFrame(outs, probe, maxHops);
            f.Base() == 0 && f.config.maxHops == maxHops && f.config.poolAlternatives == 3 && f.target.None?
  {
  }

  // ----- Its paths -----

  lemma RingStep(outs: seq<nat>, probe: nat, maxHops: nat, k: nat)
    requires probe > 0 && |outs| >= 2 && k < |outs| <= maxHops
    ensures RingFrame(outs, probe, maxHops).CanStep(RingPath(|outs|, k), NextOf(|outs|, k))
    ensures RingPath(|outs|, k + 1) == RingPath(|outs|, k) + [NextOf(|outs|, k)]
  {
    hide Market.Ranked, RingFrame;
    var n, p := |outs|, RingPath(|outs|, k);
    RingSettings(outs, probe, maxHops);
    RingRanked(outs, probe, maxHops, k, NextOf(n, k));
    assert p[|p| - 1] == k;
    assert forall i :: 0 <= i < |p| ==> p[i] == i;
  }

  lemma {:induction false} RingIsPath(outs: seq<nat>, probe: nat, maxHops: nat, k: nat)
    requires probe > 0 && |outs| >= 2 && k <= |outs| <= maxHops
    ensures RingFrame(outs, probe, maxHops).SearchPath(RingPath(|outs|, k))
    ensures k == |outs| <==> RingFrame(outs, probe, maxHops).Closed(RingPath(|outs|, k))
  {
    hide RingFrame, Frame.CanStep;
    RingSettings(outs, probe, maxHops);
    if k > 0 {
      RingIsPath(outs, probe, maxHops, k - 1);
      RingStep(outs, probe, maxHops, k - 1);
      StepIsPath(RingFrame(outs, probe, maxHops), RingPath(|outs|, k - 1), NextOf(|outs|, k - 1));
    }
  }

  lemma RingHops(outs: seq<nat>, probe: nat, maxHops: nat, k: nat)
    requires probe > 0 && |outs| >= 2 && k <= |outs| <= maxHops
    ensures var f := RingFrame(outs, probe, maxHops);
            f.SearchPath(RingPath(|outs|, k)) && |f.HopsOf(RingPath(|outs|, k))| == k
            && forall i :: 0 <= i < k ==> f.HopsOf(RingPath(|outs|, k))[i].ratio == outs[i] as real / probe as real
  {
    hide Market.Ranked, RingFrame;
    var f, n, p := RingFrame(outs, probe, maxHops), |outs|, RingPath(|outs|, k);
    RingIsPath(outs, probe, maxHops, k);
    HopsOfShape(f, p);
    forall i | 0 <= i < k
      ensures f.HopsOf(p)[i].ratio == outs[i] as real / probe as real
    {
      assert p[i] == i && p[i + 1] == NextOf(n, i);
      RingRanked(outs, probe, maxHops, i, NextOf(n, i));
      var ranked := f.market.Ranked(p[i], p[i + 1]);
      assert f.HopsOf(p)[i] == f.HopOf(p[i], p[i + 1]) && ranked[0] in ranked;
    }
  }
}
