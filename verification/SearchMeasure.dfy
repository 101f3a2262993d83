/**
 The measure that makes the search loop (src/arbitrage/cycle_finder.rs:179-275) terminate for every beam
 width, although the beam does not bound the heap.
 */
module SearchMeasure {
  import opened Types
  import opened Collections
  import opened PoolGraphs
  import opened PoolGraphObject
  import opened SearchNodes

  /** Taking a node off the heap. */
  ghost function Without(heap: seq<SearchNode>, i: nat): seq<SearchNode>
    requires i < |heap|
  {
    heap[..i] + heap[i + 1..]
  }

  function PowNat(x: nat, n: nat): nat {
    if n == 0 then 1 else x * PowNat(x, n - 1)
  }

  /** A node of depth `d` weighs `w` to the hops it has left. */
  function NodeWeight(w: nat, maxHops: nat, n: SearchNode): nat {
    PowNat(w, if n.depth <= maxHops then maxHops - n.depth else 0)
  }

  function Weight(w: nat, maxHops: nat, heap: seq<SearchNode>): nat {
    if heap == [] then 0 else NodeWeight(w, maxHops, heap[0]) + Weight(w, maxHops, heap[1..])
  }

  lemma {:induction false} WeightConcat(w: nat, maxHops: nat, a: seq<SearchNode>, b: seq<SearchNode>)
    ensures Weight(w, maxHops, a + b) == Weight(w, maxHops, a) + Weight(w, maxHops, b)
  {
    if a == [] {
      assert a + b == b;
    } else {
      assert (a + b)[1..] == a[1..] + b;
      WeightConcat(w, maxHops, a[1..], b);
    }
  }

  lemma {:induction false} WeightOfLevel(w: nat, maxHops: nat, nodes: seq<SearchNode>, d: nat)
    requires d <= maxHops && forall i :: 0 <= i < |nodes| ==> nodes[i].depth == d
    ensures Weight(w, maxHops, nodes) == |nodes| * PowNat(w, maxHops - d)
  {
    if nodes != [] {
      WeightOfLevel(w, maxHops, nodes[1..], d);
    }
  }

  lemma {:induction false} PowNatPositive(x: nat, n: nat)
    requires x > 0
    ensures PowNat(x, n) > 0
  {
    if n > 0 {
      PowNatPositive(x, n - 1);
      assert x * PowNat(x, n - 1) >= PowNat(x, n - 1);
    }
  }

  lemma WeightWithout(w: nat, maxHops: nat, heap: seq<SearchNode>, i: nat)
    requires i < |heap|
    ensures Weight(w, maxHops, Without(heap, i)) + NodeWeight(w, maxHops, heap[i]) == Weight(w, maxHops, heap)
  {
    WeightConcat(w, maxHops, heap[..i], heap[i..]);
    assert heap[..i] + heap[i..] == heap;
    assert heap[i..][1..] == heap[i + 1..];
    WeightConcat(w, maxHops, heap[..i], heap[i + 1..]);
  }

  /** Replacing a node by fewer than `w` children one level down makes the heap lighter. */
  lemma WeightShrinks(w: nat, maxHops: nat, heap: seq<SearchNode>, i: nat, added: seq<SearchNode>)
    requires i < |heap| && w > 0 && |added| < w
    requires heap[i].depth < maxHops || added == []
    requires forall k :: 0 <= k < |added| ==> added[k].depth == heap[i].depth + 1
    ensures Weight(w, maxHops, Without(heap, i) + added) < Weight(w, maxHops, heap)
  {
    WeightWithout(w, maxHops, heap, i);
    WeightConcat(w, maxHops, Without(heap, i), added);
    if added == [] {
      PowNatPositive(w, if heap[i].depth <= maxHops then maxHops - heap[i].depth else 0);
    } else {
      var unit := PowNat(w, maxHops - heap[i].depth - 1);
      WeightOfLevel(w, maxHops, added, heap[i].depth + 1);
      PowNatPositive(w, maxHops - heap[i].depth - 1);
      FewerWeighLess(|added|, w, unit);
    }
  }

  lemma FewerWeighLess(n: nat, w: nat, unit: nat)
    requires n < w && unit > 0
    ensures n * unit < w * unit
  {
  }

  /** A token has fewer neighbors than the graph has tokens plus one. */
  lemma DegreeBound(s: GraphState, u: Pubkey)
    requires Valid(s)
    ensures |Neighborhood(s.adj, u)| < |s.adj| + 1
  {
    forall v | v in Neighborhood(s.adj, u)
      ensures v in s.adj
    {
      assert PoolsBetween(s.adj, u, v) == PoolsBetween(s.adj, v, u) != [];
    }
    SubsetSize(Neighborhood(s.adj, u).Keys, s.adj.Keys);
  }
}
