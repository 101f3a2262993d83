/**
 The breadth-first neighborhood of a targeted search (src/arbitrage/cycle_finder.rs,
 build_search_subgraph): the loop computes exactly the layered closure `Reach`, and that closure
 holds every token of every short simple cycle through a seed.
 */
module SearchSubgraph {
  import opened Types
  import opened Collections
  import opened PoolGraphs
  import opened PoolGraphObject

  ghost function Near(adj: Adjacency, u: Pubkey): set<Pubkey> {
    Neighborhood(adj, u).Keys
  }

  /** One search problem: who is next to whom, where cycles close, and the seeds the graph knows. */
  datatype Area = Area(near: Pubkey -> set<Pubkey>, base: Pubkey, sources: set<Pubkey>) {

    /** The search walks on from every token except base, and from base only if base is itself a seed. */
    ghost predicate Expandable(u: Pubkey) {
      u != base || u in sources
    }

    ghost function Successors(from: set<Pubkey>): set<Pubkey> {
      set u, v | u in from && Expandable(u) && v in near(u) :: v
    }

    /** Tokens within `n` hops of a seed, never walking on from a base that is no seed. */
    ghost function Reach(n: nat): set<Pubkey> {
      if n == 0 then sources else Reach(n - 1) + Successors(Reach(n - 1))
    }

    lemma {:induction false} ReachGrows(m: nat, n: nat)
      requires m <= n
      ensures Reach(m) <= Reach(n)
    {
      if m < n {
        ReachGrows(m, n - 1);
      }
    }

    lemma ReachStep(u: Pubkey, v: Pubkey, n: nat)
      requires u in Reach(n) && Expandable(u) && v in near(u)
      ensures v in Reach(n + 1)
    {
    }
  }

  ghost function AreaOf(adj: Adjacency, base: Pubkey, seeds: seq<Pubkey>): Area {
    Area(u => Near(adj, u), base, set s | s in seeds && s in adj)
  }

  // ----- The loop invariant -----

  type Queue = seq<(Pubkey, nat)>

  ghost predicate Queued(queue: Queue, u: Pubkey) {
    exists i :: 0 <= i < |queue| && queue[i].0 == u
  }

  /** An entry of the queue while the front is at depth `d`. */
  ghost predicate EntryOk(area: Area, maxHops: nat, allowed: set<Pubkey>, d: nat, e: (Pubkey, nat)) {
    && e.0 in allowed && area.Expandable(e.0)
    && d <= e.1 <= d + 1 && e.1 <= maxHops
    && e.0 in area.Reach(e.1)
    && (e.1 == d + 1 ==> e.0 !in area.Reach(d))
  }

  ghost predicate QueueOk(area: Area, maxHops: nat, allowed: set<Pubkey>, d: nat, queue: Queue) {
    && (forall i, j :: 0 <= i < j < |queue| ==> queue[i].1 <= queue[j].1)
    && (forall i :: 0 <= i < |queue| ==> EntryOk(area, maxHops, allowed, d, queue[i]))
  }

  /** Seen tokens that may be expanded have been, or are waiting. */
  ghost predicate Tracked(area: Area, allowed: set<Pubkey>, queue: Queue, done: set<Pubkey>) {
    && (forall u :: u in done ==> area.near(u) <= allowed)
    && (forall u :: u in allowed && area.Expandable(u) ==> u in done || Queued(queue, u))
  }

  ghost predicate Layered(area: Area, maxHops: nat, allowed: set<Pubkey>, d: nat) {
    && d <= maxHops && area.base in allowed && area.Reach(d) <= allowed
    && allowed <= area.Reach(if d < maxHops then d + 1 else maxHops) + {area.base}
  }

  ghost predicate BfsOk(area: Area, maxHops: nat, allowed: set<Pubkey>, queue: Queue, done: set<Pubkey>, d: nat) {
    && Layered(area, maxHops, allowed, d)
    && QueueOk(area, maxHops, allowed, d, queue)
    && (d < maxHops ==> Tracked(area, allowed, queue, done))
  }

  /** No entry of depth `d` is left: the whole next layer is in. */
  lemma NextLayer(area: Area, maxHops: nat, allowed: set<Pubkey>, queue: Queue, done: set<Pubkey>, d: nat)
    requires BfsOk(area, maxHops, allowed, queue, done, d) && d < maxHops
    requires queue != [] ==> queue[0].1 == d + 1
    ensures BfsOk(area, maxHops, allowed, queue, done, d + 1)
    ensures queue == [] ==> area.Successors(allowed) <= allowed
  {
    hide QueueOk, Tracked, Area.Successors;
    NextQueue(area, maxHops, allowed, queue, d);
    ExpandedLayer(area, allowed, queue, done, area.Reach(d));
    if queue == [] {
      ExpandedLayer(area, allowed, queue, done, allowed);
    }
    area.ReachGrows(d + 1, if d + 1 < maxHops then d + 2 else maxHops);
  }

  /** Tokens seen but no longer waiting have been expanded. */
  lemma ExpandedLayer(area: Area, allowed: set<Pubkey>, queue: Queue, done: set<Pubkey>, layer: set<Pubkey>)
    requires Tracked(area, allowed, queue, done) && layer <= allowed
    requires forall i :: 0 <= i < |queue| ==> queue[i].0 !in layer
    ensures area.Successors(layer) <= allowed
  {
    forall v | v in area.Successors(layer)
      ensures v in allowed
    {
      var u :| u in layer && area.Expandable(u) && v in area.near(u);
      assert u in done;
    }
  }

  lemma NextQueue(area: Area, maxHops: nat, allowed: set<Pubkey>, queue: Queue, d: nat)
    requires QueueOk(area, maxHops, allowed, d, queue) && (queue != [] ==> queue[0].1 == d + 1)
    ensures QueueOk(area, maxHops, allowed, d + 1, queue)
    ensures forall i :: 0 <= i < |queue| ==> queue[i].0 !in area.Reach(d)
  {
    hide Area.Reach;
    forall i | 0 <= i < |queue|
      ensures EntryOk(area, maxHops, allowed, d + 1, queue[i]) && queue[i].0 !in area.Reach(d)
    {
      assert EntryOk(area, maxHops, allowed, d, queue[i]);
      assert queue[0].1 <= queue[i].1;
    }
  }

  /** Once nothing is left to expand, every further layer is already in. */
  lemma {:induction false} ClosedHoldsAllLayers(area: Area, allowed: set<Pubkey>, d: nat, n: nat)
    requires d <= n && area.Reach(d) <= allowed && area.Successors(allowed) <= allowed
    ensures area.Reach(n) <= allowed
  {
    if d < n {
      ClosedHoldsAllLayers(area, allowed, d, n - 1);
      assert area.Successors(area.Reach(n - 1)) <= area.Successors(allowed);
    }
  }

  lemma StillQueued(queue: Queue, added: Queue, x: Pubkey)
    requires queue != []
    ensures Queued(added, x) ==> Queued(queue[1..] + added, x)
    ensures Queued(queue, x) && x != queue[0].0 ==> Queued(queue[1..] + added, x)
  {
    var rest := queue[1..] + added;
    if Queued(added, x) {
      var i :| 0 <= i < |added| && added[i].0 == x;
      assert rest[|queue| - 1 + i].0 == x;
    }
    if Queued(queue, x) && x != queue[0].0 {
      var i :| 0 <= i < |queue| && queue[i].0 == x;
      assert rest[i - 1].0 == x;
    }
  }

  /** The entries added while token `u` at depth `d` is expanded: its unseen neighbors. */
  ghost predicate AddedOk(near: set<Pubkey>, seen: set<Pubkey>, depth: nat, added: Queue) {
    && (forall i :: 0 <= i < |added| ==> added[i].0 in near && added[i].0 !in seen && added[i].1 == depth)
    && (forall v :: v in near && v !in seen ==> Queued(added, v))
  }

  lemma VisitQueue(area: Area, maxHops: nat, allowed: set<Pubkey>, d: nat, queue: Queue, added: Queue)
    requires QueueOk(area, maxHops, allowed, d, queue) && queue != [] && queue[0].1 == d < maxHops
    requires AddedOk(area.near(queue[0].0), allowed, d + 1, added)
    requires area.Reach(d) <= allowed && area.base in allowed
    ensures QueueOk(area, maxHops, allowed + area.near(queue[0].0), d, queue[1..] + added)
  {
    var rest := queue[1..] + added;
    assert forall i :: 0 <= i < |queue| - 1 ==> rest[i] == queue[i + 1];
    assert forall i :: |queue| - 1 <= i < |rest| ==> rest[i] == added[i - (|queue| - 1)];
    forall i | 0 <= i < |rest|
      ensures EntryOk(area, maxHops, allowed + area.near(queue[0].0), d, rest[i])
    {
      if i < |queue| - 1 {
        assert EntryOk(area, maxHops, allowed, d, queue[i + 1]);
      } else {
        assert EntryOk(area, maxHops, allowed, d, queue[0]);
        area.ReachStep(queue[0].0, rest[i].0, d);
      }
    }
  }

  lemma VisitTracked(area: Area, allowed: set<Pubkey>, queue: Queue, added: Queue, done: set<Pubkey>, depth: nat)
    requires Tracked(area, allowed, queue, done) && queue != []
    requires AddedOk(area.near(queue[0].0), allowed, depth, added)
    ensures Tracked(area, allowed + area.near(queue[0].0), queue[1..] + added, done + {queue[0].0})
  {
    forall x | x in allowed + area.near(queue[0].0) && area.Expandable(x)
      ensures x in done + {queue[0].0} || Queued(queue[1..] + added, x)
    {
      StillQueued(queue, added, x);
    }
  }

  /** One round of the loop: the front token leaves, its unseen neighbors join at the back. */
  lemma Visit(area: Area, maxHops: nat, allowed: set<Pubkey>, queue: Queue, done: set<Pubkey>, d: nat, added: Queue)
    requires BfsOk(area, maxHops, allowed, queue, done, d)
    requires queue != [] && queue[0].1 == d < maxHops
    requires AddedOk(area.near(queue[0].0), allowed, d + 1, added)
    ensures BfsOk(area, maxHops, allowed + area.near(queue[0].0), queue[1..] + added, done + {queue[0].0}, d)
    ensures allowed + area.near(queue[0].0) <= area.Reach(d + 1) + {area.base}
  {
    VisitQueue(area, maxHops, allowed, d, queue, added);
    VisitTracked(area, allowed, queue, added, done, d + 1);
    assert EntryOk(area, maxHops, allowed, d, queue[0]);
  }

  lemma HeadDepth(area: Area, maxHops: nat, allowed: set<Pubkey>, queue: Queue, done: set<Pubkey>, d: nat)
    requires BfsOk(area, maxHops, allowed, queue, done, d) && queue != []
    ensures d <= queue[0].1 <= d + 1 && queue[0].1 <= maxHops
  {
    hide Layered, Tracked, Area.Reach;
    assert EntryOk(area, maxHops, allowed, d, queue[0]);
  }

  /** Popping at full depth changes nothing that matters any more. */
  lemma Drain(area: Area, maxHops: nat, allowed: set<Pubkey>, queue: Queue, done: set<Pubkey>)
    requires BfsOk(area, maxHops, allowed, queue, done, maxHops) && queue != []
    ensures BfsOk(area, maxHops, allowed, queue[1..], done, maxHops)
  {
    assert forall i :: 0 <= i < |queue| - 1 ==> queue[1..][i] == queue[i + 1];
  }

  /** Either nothing new was seen, or fewer tokens remain unseen. */
  lemma Shrinks(area: Area, maxHops: nat, d: nat, seen: set<Pubkey>, near: set<Pubkey>, added: Queue)
    requires d < maxHops && seen + near <= area.Reach(d + 1) + {area.base}
    requires AddedOk(near, seen, d + 1, added)
    ensures var all := area.Reach(maxHops) + {area.base};
            |all - (seen + near)| < |all - seen| || (added == [] && |all - (seen + near)| <= |all - seen|)
  {
    area.ReachGrows(d + 1, maxHops);
    var all := area.Reach(maxHops) + {area.base};
    SubsetSize(all - (seen + near), all - seen);
    if added != [] {
      SubsetSize(all - (seen + near), (all - seen) - {added[0].0});
    }
  }

  lemma StartOk(area: Area, maxHops: nat, queue: Queue)
    requires forall k :: 0 <= k < |queue| ==> queue[k].1 == 0 && queue[k].0 in area.sources
    requires forall u :: u in area.sources ==> Queued(queue, u)
    ensures BfsOk(area, maxHops, area.sources + {area.base}, queue, {}, 0)
  {
    area.ReachGrows(0, if 0 < maxHops then 1 else 0);
  }

  lemma FinishOk(area: Area, maxHops: nat, allowed: set<Pubkey>, done: set<Pubkey>, d: nat)
    requires BfsOk(area, maxHops, allowed, [], done, d)
    ensures allowed == area.Reach(maxHops) + {area.base}
  {
    if d < maxHops {
      NextLayer(area, maxHops, allowed, [], done, d);
      ClosedHoldsAllLayers(area, allowed, d, maxHops);
      area.ReachGrows(d + 1, maxHops);
    }
  }

  // ----- The loop -----

  /** Marks and enqueues every seed the graph knows. */
  method EnqueueSeeds(graph: PoolGraph, seeds: seq<Pubkey>) returns (allowed: set<Pubkey>, queue: Queue)
    ensures allowed == set s | s in seeds && s in graph.adj
    ensures forall k :: 0 <= k < |queue| ==> queue[k].1 == 0 && queue[k].0 in allowed
    ensures forall u :: u in allowed ==> Queued(queue, u)
  {
    allowed, queue := {}, [];
    for i := 0 to |seeds|
      invariant allowed == set s | s in seeds[..i] && s in graph.adj
      invariant forall k :: 0 <= k < |queue| ==> queue[k].1 == 0 && queue[k].0 in allowed
      invariant forall u :: u in allowed ==> Queued(queue, u)
    {
      assert seeds[..i + 1] == seeds[..i] + [seeds[i]];
      var known := graph.HasToken(seeds[i]);
      if known {
        allowed := allowed + {seeds[i]};
        queue := Enqueue(queue, (seeds[i], 0));
      }
    }
    assert seeds[..|seeds|] == seeds;
  }

  function Enqueue(queue: Queue, e: (Pubkey, nat)): (r: Queue)
    ensures r == queue + [e] && Queued(r, e.0)
    ensures forall u :: Queued(queue, u) ==> Queued(r, u)
  {
    assert (queue + [e])[|queue|].0 == e.0;
    assert forall i :: 0 <= i < |queue| ==> (queue + [e])[i] == queue[i];
    queue + [e]
  }

  /** Inserts each listed neighbor; those not seen before are queued at `depth`. */
  method MarkUnseen(list: seq<(Pubkey, seq<PoolEdge>)>, ghost near: set<Pubkey>, seen: set<Pubkey>, depth: nat)
    returns (allowed: set<Pubkey>, added: Queue)
    requires forall i :: 0 <= i < |list| ==> list[i].0 in near
    requires forall v :: v in near ==> Mentions(list, v)
    ensures allowed == seen + near && AddedOk(near, seen, depth, added)
  {
    allowed, added := seen, [];
    for i := 0 to |list|
      invariant seen <= allowed <= seen + near
      invariant forall k :: 0 <= k < i ==> list[k].0 in allowed
      invariant forall k :: 0 <= k < |added| ==> added[k].0 in near && added[k].0 !in seen && added[k].1 == depth
      invariant forall v :: v in allowed && v !in seen ==> Queued(added, v)
    {
      if list[i].0 !in allowed {
        allowed := allowed + {list[i].0};
        added := Enqueue(added, (list[i].0, depth));
      }
    }
    assert near <= allowed by {
      forall v | v in near
        ensures v in allowed
      {
        assert Mentions(list, v);
      }
    }
  }

  method MarkNeighbors(graph: PoolGraph, token: Pubkey, seen: set<Pubkey>, depth: nat)
    returns (allowed: set<Pubkey>, added: Queue)
    ensures var near := Near(graph.adj, token);
            allowed == seen + near && AddedOk(near, seen, depth, added)
  {
    var list := graph.Neighbors(token);
    allowed, added := MarkUnseen(list, Near(graph.adj, token), seen, depth);
  }

  /** The tokens of a targeted search: exactly those within `maxHops` of a known seed, plus base. */
  method BuildSearchSubgraph(graph: PoolGraph, base: Pubkey, seeds: seq<Pubkey>, maxHops: nat)
    returns (allowed: set<Pubkey>)
    ensures allowed == AreaOf(graph.adj, base, seeds).Reach(maxHops) + {base}
  {
    hide BfsOk, AddedOk, Area.Reach, Near;
    var queue: Queue;
    ghost var area := AreaOf(graph.adj, base, seeds);
    allowed, queue := EnqueueSeeds(graph, seeds);
    allowed := allowed + {base};
    ghost var done: set<Pubkey> := {};
    ghost var d: nat := 0;
    StartOk(area, maxHops, queue);
    assert allowed == area.sources + {area.base};
    while queue != []
      invariant BfsOk(area, maxHops, allowed, queue, done, d)
      decreases |area.Reach(maxHops) + {base} - allowed|, |queue|
    {
      var (token, depth) := queue[0];
      HeadDepth(area, maxHops, allowed, queue, done, d);
      if depth > d {
        NextLayer(area, maxHops, allowed, queue, done, d);
        d := d + 1;
      }
      if depth >= maxHops {
        Drain(area, maxHops, allowed, queue, done);
        queue := queue[1..];
        continue;
      }
      ghost var seen := allowed;
      var added;
      allowed, added := MarkNeighbors(graph, token, allowed, depth + 1);
      Visit(area, maxHops, seen, queue, done, d, added);
      Shrinks(area, maxHops, d, seen, area.near(token), added);
      done := done + {token};
      queue := queue[1..] + added;
    }
    FinishOk(area, maxHops, allowed, done, d);
  }

  // ----- The layers as walks -----

  /** A walk from a source to `u` of at most `n` hops that goes on from base only if base is a source. */
  ghost predicate Walk(area: Area, q: seq<Pubkey>, u: Pubkey, n: nat) {
    && 1 <= |q| <= n + 1 && q[0] in area.sources && q[|q| - 1] == u
    && (forall i :: 0 <= i < |q| - 1 ==> q[i + 1] in area.near(q[i]) && (q[i] != area.base || area.base in area.sources))
  }

  lemma {:induction false} ReachHasWalk(area: Area, u: Pubkey, n: nat)
    requires u in area.Reach(n)
    ensures exists q :: Walk(area, q, u, n)
    decreases n
  {
    if n == 0 {
      assert Walk(area, [u], u, n);
    } else if u in area.Reach(n - 1) {
      ReachHasWalk(area, u, n - 1);
      var q :| Walk(area, q, u, n - 1);
      assert Walk(area, q, u, n);
    } else {
      var t :| t in area.Reach(n - 1) && area.Expandable(t) && u in area.near(t);
      ReachHasWalk(area, t, n - 1);
      var q :| Walk(area, q, t, n - 1);
      LongerWalk(area, q, t, u, n - 1);
    }
  }

  lemma LongerWalk(area: Area, q: seq<Pubkey>, t: Pubkey, u: Pubkey, n: nat)
    requires Walk(area, q, t, n) && area.Expandable(t) && u in area.near(t)
    ensures Walk(area, q + [u], u, n + 1)
  {
    var longer := q + [u];
    forall i | 0 <= i < |longer| - 1
      ensures longer[i + 1] in area.near(longer[i]) && (longer[i] != area.base || area.base in area.sources)
    {
      assert longer[i] == q[i];
      assert i < |q| - 1 ==> longer[i + 1] == q[i + 1];
    }
  }

  lemma {:induction false} WalkIsReached(area: Area, q: seq<Pubkey>, u: Pubkey, n: nat)
    requires Walk(area, q, u, n)
    ensures u in area.Reach(n)
    decreases n
  {
    if |q| == 1 {
      area.ReachGrows(0, n);
    } else {
      var t := q[|q| - 2];
      assert Walk(area, q[..|q| - 1], t, n - 1);
      WalkIsReached(area, q[..|q| - 1], t, n - 1);
      assert q[|q| - 2 + 1] in area.near(t);
      area.ReachStep(t, u, n - 1);
    }
  }

  /** The neighborhood is exactly what such walks reach. */
  lemma ReachIsWalks(area: Area, u: Pubkey, n: nat)
    ensures u in area.Reach(n) <==> exists q :: Walk(area, q, u, n)
  {
    hide Walk, Area.Reach;
    if u in area.Reach(n) {
      ReachHasWalk(area, u, n);
    }
    if q :| Walk(area, q, u, n) {
      WalkIsReached(area, q, u, n);
    }
  }

  // ----- Nothing is lost -----

  /** A simple cycle through base: distinct tokens in between, consecutive tokens share a pool. */
  ghost predicate SimpleCycle(adj: Adjacency, base: Pubkey, p: seq<Pubkey>) {
    && |p| >= 3 && p[0] == base && p[|p| - 1] == base
    && (forall i :: 0 <= i < |p| - 1 ==> p[i + 1] in Near(adj, p[i]))
    && (forall i :: 0 < i < |p| - 1 ==> p[i] != base)
    && (forall i, j :: 0 < i < j < |p| - 1 ==> p[i] != p[j])
  }

  lemma {:induction false} ForwardReach(adj: Adjacency, base: Pubkey, seeds: seq<Pubkey>, p: seq<Pubkey>,
                                        k: nat, i: nat)
    requires SimpleCycle(adj, base, p) && k <= i < |p| && k < |p| - 1
    requires p[k] in AreaOf(adj, base, seeds).sources
    ensures p[i] in AreaOf(adj, base, seeds).Reach(i - k)
  {
    if k < i {
      ForwardReach(adj, base, seeds, p, k, i - 1);
      assert p[i - 1 + 1] in Near(adj, p[i - 1]);
      AreaOf(adj, base, seeds).ReachStep(p[i - 1], p[i], i - 1 - k);
    }
  }

  /** The way back along the cycle; this is where the graph's symmetry is needed. */
  lemma {:induction false} BackwardReach(adj: Adjacency, base: Pubkey, seeds: seq<Pubkey>, p: seq<Pubkey>,
                                         k: nat, i: nat)
    requires SimpleCycle(adj, base, p) && Symmetric(adj) && NoEmptyContainers(adj)
    requires i <= k < |p| - 1 && p[k] in AreaOf(adj, base, seeds).sources
    ensures p[i] in AreaOf(adj, base, seeds).Reach(k - i)
    decreases k - i
  {
    if i < k {
      hide Area.Reach;
      BackwardReach(adj, base, seeds, p, k, i + 1);
      assert p[i + 1] in Near(adj, p[i]);
      assert PoolsBetween(adj, p[i + 1], p[i]) == PoolsBetween(adj, p[i], p[i + 1]) != [];
      AreaOf(adj, base, seeds).ReachStep(p[i + 1], p[i], k - i - 1);
    }
  }

  /**
   Main result: every simple cycle of at most `maxHops` hops through a seed lies wholly inside the
   subgraph, although the breadth-first search never walks through a base that is no seed.
   */
  lemma CyclesThroughSeedsSurvive(s: GraphState, base: Pubkey, seeds: seq<Pubkey>, maxHops: nat,
                                  p: seq<Pubkey>, k: nat)
    requires Valid(s) && SimpleCycle(s.adj, base, p) && |p| - 1 <= maxHops
    requires k < |p| && p[k] in seeds
    ensures forall i :: 0 <= i < |p| ==> p[i] in AreaOf(s.adj, base, seeds).Reach(maxHops)
  {
    var k' := if k == |p| - 1 then 0 else k;
    var area := AreaOf(s.adj, base, seeds);
    assert p[k' + 1] in Near(s.adj, p[k']);
    forall i | 0 <= i < |p|
      ensures p[i] in area.Reach(maxHops)
    {
      if k' <= i {
        ForwardReach(s.adj, base, seeds, p, k', i);
        area.ReachGrows(i - k', maxHops);
      } else {
        BackwardReach(s.adj, base, seeds, p, k', i);
        area.ReachGrows(k' - i, maxHops);
      }
    }
  }
}
