/**
 The pool graph (src/arbitrage/pool_graph.rs): a bidirectional multigraph that keeps at most three
 pools per pair of mints, a reverse index from pool address to pair, and counters.

 Every operation is a function on values here, and the representation invariant is proved over every run
 of operations. The object that updates its fields in place, in PoolGraphObject, is proved to compute
 these functions.
 */
module PoolGraphs {
  import opened Types
  import opened Sorting
  import opened Collections

  const MAX_POOLS_PER_PAIR: nat := 3

  type Adjacency = map<Pubkey, map<Pubkey, seq<PoolEdge>>>
  type PoolIndex = map<Pubkey, (Pubkey, Pubkey)>

  datatype GraphState = GraphState(adj: Adjacency, index: PoolIndex)

  function PoolsBetween(adj: Adjacency, a: Pubkey, b: Pubkey): seq<PoolEdge> {
    if a in adj && b in adj[a] then adj[a][b] else []
  }

  // ----- One list of pools -----

  predicate HasAddress(pools: seq<PoolEdge>, address: Pubkey) {
    exists i :: 0 <= i < |pools| && pools[i].poolAddress == address
  }

  ghost predicate DistinctAddresses(pools: seq<PoolEdge>) {
    forall i, j :: 0 <= i < j < |pools| ==> pools[i].poolAddress != pools[j].poolAddress
  }

  /** The first position of `address`, or the length of the list. */
  function Position(pools: seq<PoolEdge>, address: Pubkey): (i: nat)
    ensures i <= |pools|
    ensures i < |pools| ==> pools[i].poolAddress == address
    ensures forall j :: 0 <= j < i ==> pools[j].poolAddress != address
  {
    if pools == [] || pools[0].poolAddress == address then 0
    else 1 + Position(pools[1..], address)
  }

  /** Replaces the pool with the same address, or appends and keeps the three most liquid pools. */
  function AddPool(pools: seq<PoolEdge>, edge: PoolEdge): seq<PoolEdge> {
    var i := Position(pools, edge.poolAddress);
    if i < |pools| then pools[i := edge]
    else if |pools| < MAX_POOLS_PER_PAIR then pools + [edge]
    else Sort(pools + [edge], MoreLiquid)[..MAX_POOLS_PER_PAIR]
  }

  function WithoutAddress(pools: seq<PoolEdge>, address: Pubkey): (r: seq<PoolEdge>)
    ensures forall e :: e in r <==> e in pools && e.poolAddress != address
    ensures |r| <= |pools|
  {
    if pools == [] then []
    else if pools[0].poolAddress == address then WithoutAddress(pools[1..], address)
    else [pools[0]] + WithoutAddress(pools[1..], address)
  }

  lemma {:induction false} WithoutAddressKeepsDistinct(pools: seq<PoolEdge>, address: Pubkey)
    requires DistinctAddresses(pools)
    ensures DistinctAddresses(WithoutAddress(pools, address))
  {
    if pools != [] {
      WithoutAddressKeepsDistinct(pools[1..], address);
      var rest := WithoutAddress(pools[1..], address);
      assert forall e :: e in rest ==> e in pools[1..];
    }
  }

  /** What adding does to one list: bounded, distinct, nothing invented, old copy of the pool gone. */
  lemma AddPoolKeeps(pools: seq<PoolEdge>, edge: PoolEdge)
    requires DistinctAddresses(pools) && |pools| <= MAX_POOLS_PER_PAIR
    ensures var r := AddPool(pools, edge);
            && 1 <= |r| <= MAX_POOLS_PER_PAIR && DistinctAddresses(r)
            && (forall e :: e in r ==> e == edge || (e in pools && e.poolAddress != edge.poolAddress))
  {
    var i := Position(pools, edge.poolAddress);
    if i == |pools| {
      var full := pools + [edge];
      SortMembers(full, MoreLiquid);
      DistinctKeysPermuted(full, Sort(full, MoreLiquid), (e: PoolEdge) => e.poolAddress);
      assert forall e :: e in AddPool(pools, edge) ==> e in full;
    } else {
      forall e | e in AddPool(pools, edge)
        ensures e == edge || (e in pools && e.poolAddress != edge.poolAddress)
      {
        var k :| 0 <= k < |pools| && AddPool(pools, edge)[k] == e;
      }
    }
  }

  /** Eviction drops only a least liquid pool: whatever is missing is no more liquid than what stays. */
  lemma EvictionDropsLeastLiquid(pools: seq<PoolEdge>, edge: PoolEdge, gone: PoolEdge, kept: PoolEdge)
    requires !HasAddress(pools, edge.poolAddress)
    requires gone in pools + [edge] && gone !in AddPool(pools, edge) && kept in AddPool(pools, edge)
    ensures |pools| >= MAX_POOLS_PER_PAIR && kept.liquidityUsd >= gone.liquidityUsd
  {
    var full := pools + [edge];
    var sorted := Sort(full, MoreLiquid);
    SortSorted(full, MoreLiquid);
    SortMembers(full, MoreLiquid);
    assert |pools| >= MAX_POOLS_PER_PAIR;
    var k :| 0 <= k < MAX_POOLS_PER_PAIR && sorted[k] == kept;
    var g :| 0 <= g < |sorted| && sorted[g] == gone;
  }

  // ----- Adjacency updates -----

  function AddDirected(adj: Adjacency, from: Pubkey, to: Pubkey, edge: PoolEdge): Adjacency {
    var neighbors := if from in adj then adj[from] else map[];
    var pools := if to in neighbors then neighbors[to] else [];
    adj[from := neighbors[to := AddPool(pools, edge)]]
  }

  function RemoveDirected(adj: Adjacency, address: Pubkey, from: Pubkey, to: Pubkey): Adjacency {
    if from !in adj then adj
    else
      var neighbors := adj[from];
      var left :=
        if to !in neighbors then neighbors
        else
          var pools := WithoutAddress(neighbors[to], address);
          if pools == [] then neighbors - {to} else neighbors[to := pools];
      if left == map[] then adj - {from} else adj[from := left]
  }

  function RemoveBoth(adj: Adjacency, address: Pubkey, a: Pubkey, b: Pubkey): Adjacency {
    RemoveDirected(RemoveDirected(adj, address, a, b), address, b, a)
  }

  function AddBoth(adj: Adjacency, edge: PoolEdge): Adjacency {
    AddDirected(AddDirected(adj, edge.mintA, edge.mintB, edge), edge.mintB, edge.mintA, edge)
  }

  // ----- Operations and runs -----

  function Upserted(s: GraphState, edge: PoolEdge): GraphState {
    var cleared :=
      if edge.poolAddress in s.index && s.index[edge.poolAddress] != (edge.mintA, edge.mintB)
      then RemoveBoth(s.adj, edge.poolAddress, s.index[edge.poolAddress].0, s.index[edge.poolAddress].1)
      else s.adj;
    GraphState(AddBoth(cleared, edge), s.index[edge.poolAddress := (edge.mintA, edge.mintB)])
  }

  function Removed(s: GraphState, address: Pubkey): GraphState {
    if address !in s.index then s
    else GraphState(RemoveBoth(s.adj, address, s.index[address].0, s.index[address].1), s.index - {address})
  }

  function BulkUpserted(s: GraphState, edges: seq<PoolEdge>): GraphState {
    if edges == [] then s
    else Upserted(BulkUpserted(s, edges[..|edges| - 1]), edges[|edges| - 1])
  }

  datatype GraphOp = Upsert(edge: PoolEdge) | Remove(address: Pubkey) | BulkUpsert(edges: seq<PoolEdge>) | Clear

  function Empty(): GraphState {
    GraphState(map[], map[])
  }

  function Apply(s: GraphState, op: GraphOp): GraphState {
    match op
    case Upsert(edge) => Upserted(s, edge)
    case Remove(address) => Removed(s, address)
    case BulkUpsert(edges) => BulkUpserted(s, edges)
    case Clear => Empty()
  }

  /** The state after a run of operations on a new graph. */
  function Run(ops: seq<GraphOp>): GraphState {
    if ops == [] then Empty() else Apply(Run(ops[..|ops| - 1]), ops[|ops| - 1])
  }

  // ----- The representation invariant -----

  ghost predicate NoEmptyContainers(adj: Adjacency) {
    && (forall a :: a in adj ==> adj[a] != map[])
    && (forall a, b :: a in adj && b in adj[a] ==> adj[a][b] != [])
  }

  ghost predicate Symmetric(adj: Adjacency) {
    forall a, b :: PoolsBetween(adj, a, b) == PoolsBetween(adj, b, a)
  }

  ghost predicate Indexed(e: PoolEdge, index: PoolIndex) {
    e.poolAddress in index && index[e.poolAddress] == (e.mintA, e.mintB)
  }

  ghost predicate ListOk(pools: seq<PoolEdge>, index: PoolIndex, a: Pubkey, b: Pubkey) {
    && |pools| <= MAX_POOLS_PER_PAIR
    && DistinctAddresses(pools)
    && (forall e :: e in pools ==> Joins(e, a, b) && Indexed(e, index))
  }

  ghost predicate ListsOk(s: GraphState) {
    forall a, b :: ListOk(PoolsBetween(s.adj, a, b), s.index, a, b)
  }

  ghost predicate Valid(s: GraphState) {
    NoEmptyContainers(s.adj) && Symmetric(s.adj) && ListsOk(s)
  }

  lemma AddDirectedPools(adj: Adjacency, from: Pubkey, to: Pubkey, edge: PoolEdge)
    ensures forall x, y :: PoolsBetween(AddDirected(adj, from, to, edge), x, y)
              == if x == from && y == to then AddPool(PoolsBetween(adj, from, to), edge)
                 else PoolsBetween(adj, x, y)
  {
  }

  lemma AddDirectedNoEmpty(adj: Adjacency, from: Pubkey, to: Pubkey, edge: PoolEdge)
    requires NoEmptyContainers(adj) && AddPool(PoolsBetween(adj, from, to), edge) != []
    ensures NoEmptyContainers(AddDirected(adj, from, to, edge))
  {
    assert to in AddDirected(adj, from, to, edge)[from];
  }

  lemma RemoveDirectedPools(adj: Adjacency, address: Pubkey, from: Pubkey, to: Pubkey)
    ensures forall x, y :: PoolsBetween(RemoveDirected(adj, address, from, to), x, y)
              == if x == from && y == to then WithoutAddress(PoolsBetween(adj, from, to), address)
                 else PoolsBetween(adj, x, y)
  {
    if from in adj {
      var neighbors := adj[from];
      if to in neighbors {
        var pools := WithoutAddress(neighbors[to], address);
        if pools == [] {
          var left := neighbors - {to};
          assert left == map[] ==> forall y :: y in neighbors ==> y == to by {
            if left == map[] {
              forall y | y in neighbors ensures y == to {
                assert y != to ==> y in left;
              }
            }
          }
        } else {
          assert to in neighbors[to := pools];
        }
      }
    }
  }

  lemma RemoveDirectedNoEmpty(adj: Adjacency, address: Pubkey, from: Pubkey, to: Pubkey)
    requires NoEmptyContainers(adj)
    ensures NoEmptyContainers(RemoveDirected(adj, address, from, to))
  {
  }

  /** Removing twice from one list is removing once. */
  lemma {:induction false} WithoutAddressTwice(pools: seq<PoolEdge>, address: Pubkey)
    ensures WithoutAddress(WithoutAddress(pools, address), address) == WithoutAddress(pools, address)
  {
    if pools != [] {
      WithoutAddressTwice(pools[1..], address);
    }
  }

  /** Both directions of a removal: exactly the lists of the pair lose the pool. */
  lemma RemoveBothPools(adj: Adjacency, address: Pubkey, a: Pubkey, b: Pubkey)
    requires Symmetric(adj)
    ensures forall x, y :: PoolsBetween(RemoveBoth(adj, address, a, b), x, y)
              == if (x == a && y == b) || (x == b && y == a)
                 then WithoutAddress(PoolsBetween(adj, x, y), address)
                 else PoolsBetween(adj, x, y)
  {
    RemoveDirectedPools(adj, address, a, b);
    RemoveDirectedPools(RemoveDirected(adj, address, a, b), address, b, a);
    WithoutAddressTwice(PoolsBetween(adj, a, b), address);
  }

  lemma RemoveBothValid(s: GraphState, address: Pubkey)
    requires Valid(s) && address in s.index
    ensures var r := RemoveBoth(s.adj, address, s.index[address].0, s.index[address].1);
            && NoEmptyContainers(r) && Symmetric(r)
            && (forall x, y :: ListOk(PoolsBetween(r, x, y), s.index, x, y))
            && (forall x, y :: !HasAddress(PoolsBetween(r, x, y), address))
  {
    var (a, b) := s.index[address];
    RemoveBothPools(s.adj, address, a, b);
    RemoveDirectedNoEmpty(s.adj, address, a, b);
    RemoveDirectedNoEmpty(RemoveDirected(s.adj, address, a, b), address, b, a);
    var r := RemoveBoth(s.adj, address, a, b);
    forall x, y
      ensures ListOk(PoolsBetween(r, x, y), s.index, x, y) && !HasAddress(PoolsBetween(r, x, y), address)
    {
      var pools := PoolsBetween(s.adj, x, y);
      assert ListOk(pools, s.index, x, y);
      WithoutAddressKeepsDistinct(pools, address);
      var left := PoolsBetween(r, x, y);
      forall i | 0 <= i < |left|
        ensures left[i].poolAddress != address
      {
        assert left[i] in left && left[i] in pools;
        assert Joins(left[i], x, y) && Indexed(left[i], s.index);
      }
    }
  }

  /** Both directions of an addition: exactly the lists of the pair change (a self-loop's list twice). */
  lemma AddBothPools(adj: Adjacency, edge: PoolEdge)
    requires Symmetric(adj)
    ensures forall x, y ::
              var old' := PoolsBetween(adj, x, y);
              PoolsBetween(AddBoth(adj, edge), x, y)
              == if !Joins(edge, x, y) then old'
                 else if edge.mintA == edge.mintB then AddPool(AddPool(old', edge), edge)
                 else AddPool(old', edge)
  {
    AddDirectedPools(adj, edge.mintA, edge.mintB, edge);
    AddDirectedPools(AddDirected(adj, edge.mintA, edge.mintB, edge), edge.mintB, edge.mintA, edge);
  }

  lemma AddPoolListOk(pools: seq<PoolEdge>, index: PoolIndex, edge: PoolEdge, x: Pubkey, y: Pubkey)
    requires ListOk(pools, index, x, y) && Joins(edge, x, y)
    ensures ListOk(AddPool(pools, edge), index[edge.poolAddress := (edge.mintA, edge.mintB)], x, y)
    ensures AddPool(pools, edge) != []
  {
    AddPoolKeeps(pools, edge);
  }

  lemma OtherListOk(pools: seq<PoolEdge>, index: PoolIndex, edge: PoolEdge, x: Pubkey, y: Pubkey)
    requires ListOk(pools, index, x, y) && !HasAddress(pools, edge.poolAddress)
    ensures ListOk(pools, index[edge.poolAddress := (edge.mintA, edge.mintB)], x, y)
  {
    forall e | e in pools
      ensures e.poolAddress != edge.poolAddress
    {
      var i :| 0 <= i < |pools| && pools[i] == e;
    }
  }

  lemma AddPoolNotEmpty(pools: seq<PoolEdge>, edge: PoolEdge)
    ensures AddPool(pools, edge) != []
  {
  }

  lemma AddBothNoEmpty(adj: Adjacency, edge: PoolEdge)
    requires NoEmptyContainers(adj)
    ensures NoEmptyContainers(AddBoth(adj, edge))
  {
    hide AddDirected, AddPool, NoEmptyContainers;
    var once := AddDirected(adj, edge.mintA, edge.mintB, edge);
    AddPoolNotEmpty(PoolsBetween(adj, edge.mintA, edge.mintB), edge);
    AddDirectedNoEmpty(adj, edge.mintA, edge.mintB, edge);
    AddPoolNotEmpty(PoolsBetween(once, edge.mintB, edge.mintA), edge);
    AddDirectedNoEmpty(once, edge.mintB, edge.mintA, edge);
  }

  lemma AddBothSymmetric(adj: Adjacency, edge: PoolEdge)
    requires Symmetric(adj)
    ensures Symmetric(AddBoth(adj, edge))
  {
    hide AddBoth, AddPool, PoolsBetween;
    AddBothPools(adj, edge);
  }

  lemma AddBothListOk(s: GraphState, edge: PoolEdge, x: Pubkey, y: Pubkey)
    requires Symmetric(s.adj) && ListOk(PoolsBetween(s.adj, x, y), s.index, x, y)
    requires HasAddress(PoolsBetween(s.adj, x, y), edge.poolAddress) ==> Joins(edge, x, y)
    ensures ListOk(PoolsBetween(AddBoth(s.adj, edge), x, y),
                   s.index[edge.poolAddress := (edge.mintA, edge.mintB)], x, y)
  {
    hide AddBoth, AddPool, PoolsBetween, ListOk, HasAddress;
    AddBothPools(s.adj, edge);
    var pools := PoolsBetween(s.adj, x, y);
    var index := s.index[edge.poolAddress := (edge.mintA, edge.mintB)];
    if Joins(edge, x, y) {
      AddPoolListOk(pools, s.index, edge, x, y);
      AddPoolListOk(AddPool(pools, edge), index, edge, x, y);
      assert index[edge.poolAddress := (edge.mintA, edge.mintB)] == index;
    } else {
      OtherListOk(pools, s.index, edge, x, y);
    }
  }

  lemma AddBothValid(s: GraphState, edge: PoolEdge)
    requires Valid(s)
    requires forall x, y :: HasAddress(PoolsBetween(s.adj, x, y), edge.poolAddress) ==> Joins(edge, x, y)
    ensures Valid(GraphState(AddBoth(s.adj, edge), s.index[edge.poolAddress := (edge.mintA, edge.mintB)]))
  {
    hide AddBoth, PoolsBetween, ListOk, HasAddress, NoEmptyContainers, Symmetric;
    AddBothNoEmpty(s.adj, edge);
    AddBothSymmetric(s.adj, edge);
    forall x, y
      ensures ListOk(PoolsBetween(AddBoth(s.adj, edge), x, y),
                     s.index[edge.poolAddress := (edge.mintA, edge.mintB)], x, y)
    {
      AddBothListOk(s, edge, x, y);
    }
  }

  lemma UpsertedValid(s: GraphState, edge: PoolEdge)
    requires Valid(s)
    ensures Valid(Upserted(s, edge))
  {
    var p := edge.poolAddress;
    if p in s.index && s.index[p] != (edge.mintA, edge.mintB) {
      RemoveBothValid(s, p);
      var cleared := RemoveBoth(s.adj, p, s.index[p].0, s.index[p].1);
      AddBothValid(GraphState(cleared, s.index), edge);
    } else {
      forall x, y | HasAddress(PoolsBetween(s.adj, x, y), p)
        ensures Joins(edge, x, y)
      {
        assert ListOk(PoolsBetween(s.adj, x, y), s.index, x, y);
        var i :| 0 <= i < |PoolsBetween(s.adj, x, y)| && PoolsBetween(s.adj, x, y)[i].poolAddress == p;
        assert Joins(PoolsBetween(s.adj, x, y)[i], x, y);
      }
      AddBothValid(s, edge);
    }
  }

  lemma RemovedValid(s: GraphState, address: Pubkey)
    requires Valid(s)
    ensures Valid(Removed(s, address))
    ensures forall x, y :: !HasAddress(PoolsBetween(Removed(s, address).adj, x, y), address)
  {
    if address in s.index {
      RemoveBothValid(s, address);
      var r := Removed(s, address);
      forall x, y
        ensures ListOk(PoolsBetween(r.adj, x, y), r.index, x, y)
      {
        var pools := PoolsBetween(r.adj, x, y);
        assert ListOk(pools, s.index, x, y) && !HasAddress(pools, address);
        forall e | e in pools
          ensures e.poolAddress != address
        {
          var i :| 0 <= i < |pools| && pools[i] == e;
        }
      }
    } else {
      forall x, y
        ensures !HasAddress(PoolsBetween(s.adj, x, y), address)
      {
        assert ListOk(PoolsBetween(s.adj, x, y), s.index, x, y);
        assert forall i :: 0 <= i < |PoolsBetween(s.adj, x, y)| ==> Indexed(PoolsBetween(s.adj, x, y)[i], s.index);
      }
    }
  }

  lemma {:induction false} BulkUpsertedValid(s: GraphState, edges: seq<PoolEdge>)
    requires Valid(s)
    ensures Valid(BulkUpserted(s, edges))
  {
    if edges != [] {
      BulkUpsertedValid(s, edges[..|edges| - 1]);
      UpsertedValid(BulkUpserted(s, edges[..|edges| - 1]), edges[|edges| - 1]);
    }
  }

  /** Main result: every run of upserts, removals, bulk upserts and clears keeps the invariant. */
  lemma {:induction false} EveryRunIsValid(ops: seq<GraphOp>)
    ensures Valid(Run(ops))
  {
    if ops == [] {
      assert forall a, b :: PoolsBetween(Empty().adj, a, b) == [];
    } else {
      var s := Run(ops[..|ops| - 1]);
      EveryRunIsValid(ops[..|ops| - 1]);
      match ops[|ops| - 1]
      case Upsert(edge) => UpsertedValid(s, edge);
      case Remove(address) => RemovedValid(s, address);
      case BulkUpsert(edges) => BulkUpsertedValid(s, edges);
      case Clear => assert forall a, b :: PoolsBetween(Empty().adj, a, b) == [];
    }
  }
}
