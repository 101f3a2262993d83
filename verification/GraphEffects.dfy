/**
 What one graph operation does to every pair of mints (src/arbitrage/pool_graph.rs:55-87, 152-231), said
 without the position, sort and truncation the code uses.
 */
module GraphEffects {
  import opened Types
  import opened Sorting
  import opened PoolGraphs

  /** `kept` is a choice of as many contenders as fit, and none left out is more liquid than one kept. */
  ghost predicate KeepsBest(kept: seq<PoolEdge>, contenders: seq<PoolEdge>) {
    && |kept| == (if |contenders| <= 3 then |contenders| else 3)
    && DistinctAddresses(kept)
    && (forall e :: e in kept ==> e in contenders)
    && (forall gone, e :: gone in contenders && gone !in kept && e in kept ==> e.liquidityUsd >= gone.liquidityUsd)
    && (|contenders| <= 3 ==> forall e :: e in contenders ==> e in kept)
  }

  /** The other pools of the pair, and the upserted one in place of any older copy. */
  ghost function Contenders(pools: seq<PoolEdge>, edge: PoolEdge): seq<PoolEdge> {
    WithoutAddress(pools, edge.poolAddress) + [edge]
  }

  lemma {:induction false} WithoutAddressSize(pools: seq<PoolEdge>, address: Pubkey)
    requires DistinctAddresses(pools)
    ensures |WithoutAddress(pools, address)| == if HasAddress(pools, address) then |pools| - 1 else |pools|
    ensures !HasAddress(pools, address) ==> WithoutAddress(pools, address) == pools
  {
    if pools != [] {
      assert pools == [pools[0]] + pools[1..];
      WithoutAddressSize(pools[1..], address);
      if pools[0].poolAddress == address {
        assert forall i :: 0 <= i < |pools| - 1 ==> pools[1..][i].poolAddress != address;
      } else {
        assert HasAddress(pools, address) ==> HasAddress(pools[1..], address) by {
          if HasAddress(pools, address) {
            var i :| 0 <= i < |pools| && pools[i].poolAddress == address;
            assert pools[1..][i - 1].poolAddress == address;
          }
        }
        assert HasAddress(pools[1..], address) ==> HasAddress(pools, address) by {
          if HasAddress(pools[1..], address) {
            var i :| 0 <= i < |pools| - 1 && pools[1..][i].poolAddress == address;
            assert pools[i + 1].poolAddress == address;
          }
        }
      }
    }
  }

  /** Replacing in place. */
  lemma ReplaceKeepsBest(pools: seq<PoolEdge>, edge: PoolEdge)
    requires DistinctAddresses(pools) && |pools| <= MAX_POOLS_PER_PAIR && HasAddress(pools, edge.poolAddress)
    ensures KeepsBest(AddPool(pools, edge), Contenders(pools, edge))
  {
    var i := Position(pools, edge.poolAddress);
    var kept, all := AddPool(pools, edge), Contenders(pools, edge);
    WithoutAddressSize(pools, edge.poolAddress);
    AddPoolKeeps(pools, edge);
    assert kept[i] == edge;
    forall e | e in all
      ensures e in kept
    {
      if e != edge {
        var k :| 0 <= k < |pools| && pools[k] == e;
        assert kept[k] == e;
      }
    }
  }

  /** Appending, sorting and truncating. */
  lemma AppendKeepsBest(pools: seq<PoolEdge>, edge: PoolEdge)
    requires DistinctAddresses(pools) && |pools| <= MAX_POOLS_PER_PAIR && !HasAddress(pools, edge.poolAddress)
    ensures Contenders(pools, edge) == pools + [edge]
    ensures KeepsBest(AddPool(pools, edge), pools + [edge])
  {
    hide Sort, MoreLiquid;
    var kept, all := AddPool(pools, edge), pools + [edge];
    WithoutAddressSize(pools, edge.poolAddress);
    AddPoolKeeps(pools, edge);
    forall gone, e | gone in all && gone !in kept && e in kept
      ensures e.liquidityUsd >= gone.liquidityUsd
    {
      EvictionDropsLeastLiquid(pools, edge, gone, e);
    }
  }

  lemma AddKeepsBest(pools: seq<PoolEdge>, edge: PoolEdge)
    requires DistinctAddresses(pools) && |pools| <= MAX_POOLS_PER_PAIR
    ensures KeepsBest(AddPool(pools, edge), Contenders(pools, edge))
  {
    hide AddPool, KeepsBest, Contenders;
    if HasAddress(pools, edge.poolAddress) {
      ReplaceKeepsBest(pools, edge);
    } else {
      AppendKeepsBest(pools, edge);
    }
  }

  /** A pool that survived the first insertion is left alone by the second. */
  lemma AddStored(pools: seq<PoolEdge>, edge: PoolEdge)
    requires DistinctAddresses(pools) && edge in pools
    ensures AddPool(pools, edge) == pools
  {
    var k :| 0 <= k < |pools| && pools[k] == edge;
    var i := Position(pools, edge.poolAddress);
    assert i == k;
  }

  lemma AddWithRoom(pools: seq<PoolEdge>, edge: PoolEdge)
    requires HasAddress(pools, edge.poolAddress) || |pools| < MAX_POOLS_PER_PAIR
    ensures edge in AddPool(pools, edge)
  {
    var i, kept := Position(pools, edge.poolAddress), AddPool(pools, edge);
    assert kept[i] == edge;
  }

  /** A pool that did not survive the first insertion competes with the same pools again. */
  lemma AddRejected(pools: seq<PoolEdge>, edge: PoolEdge)
    requires DistinctAddresses(pools) && |pools| <= MAX_POOLS_PER_PAIR && edge !in AddPool(pools, edge)
    ensures var kept := AddPool(pools, edge);
            && !HasAddress(pools, edge.poolAddress) && !HasAddress(kept, edge.poolAddress)
            && |pools| == |kept| == MAX_POOLS_PER_PAIR
            && (forall e :: e in kept + [edge] <==> e in pools + [edge])
  {
    var kept, full := AddPool(pools, edge), pools + [edge];
    if HasAddress(pools, edge.poolAddress) || |pools| < MAX_POOLS_PER_PAIR {
      AddWithRoom(pools, edge);
    }
    AddPoolKeeps(pools, edge);
    var sorted := Sort(full, MoreLiquid);
    SortMembers(full, MoreLiquid);
    hide Sort, MoreLiquid;
    assert kept == sorted[..MAX_POOLS_PER_PAIR] && |sorted| == MAX_POOLS_PER_PAIR + 1;
    assert sorted == kept + [sorted[MAX_POOLS_PER_PAIR]];
    assert edge in sorted;
    assert sorted[MAX_POOLS_PER_PAIR] == edge;
    forall i | 0 <= i < |kept|
      ensures kept[i].poolAddress != edge.poolAddress
    {
      assert kept[i] in kept;
    }
  }

  /** A self-loop is inserted twice into its one list, to the same effect. */
  lemma AddTwiceKeepsBest(pools: seq<PoolEdge>, edge: PoolEdge)
    requires DistinctAddresses(pools) && |pools| <= MAX_POOLS_PER_PAIR
    ensures KeepsBest(AddPool(AddPool(pools, edge), edge), Contenders(pools, edge))
  {
    hide AddPool;
    var once := AddPool(pools, edge);
    AddKeepsBest(pools, edge);
    AddPoolKeeps(pools, edge);
    if edge in once {
      AddStored(once, edge);
    } else {
      AddRejected(pools, edge);
      AppendKeepsBest(pools, edge);
      AppendKeepsBest(once, edge);
    }
  }

  /** Where the invariant holds, a list not joined by a pool's indexed pair does not hold the pool. */
  lemma NotElsewhere(s: GraphState, address: Pubkey, x: Pubkey, y: Pubkey)
    requires Valid(s)
    requires address in s.index ==> (s.index[address] != (x, y) && s.index[address] != (y, x))
    ensures WithoutAddress(PoolsBetween(s.adj, x, y), address) == PoolsBetween(s.adj, x, y)
  {
    var pools := PoolsBetween(s.adj, x, y);
    assert ListOk(pools, s.index, x, y);
    forall i | 0 <= i < |pools|
      ensures pools[i].poolAddress != address
    {
      assert pools[i] in pools;
    }
    WithoutAddressSize(pools, address);
  }

  /** Removal takes the pool out of every list, and nothing else out of any. */
  lemma RemovalEffect(s: GraphState, address: Pubkey, x: Pubkey, y: Pubkey)
    requires Valid(s)
    ensures PoolsBetween(Removed(s, address).adj, x, y) == WithoutAddress(PoolsBetween(s.adj, x, y), address)
  {
    hide Valid, PoolsBetween, WithoutAddress, RemoveBoth;
    if address in s.index {
      var (a, b) := s.index[address];
      assert Symmetric(s.adj) by {
        ValidIsSymmetric(s);
      }
      RemoveBothPools(s.adj, address, a, b);
      if !((x == a && y == b) || (x == b && y == a)) {
        NotElsewhere(s, address, x, y);
      }
    } else {
      NotElsewhere(s, address, x, y);
    }
  }

  lemma ValidIsSymmetric(s: GraphState)
    requires Valid(s)
    ensures Symmetric(s.adj)
    ensures forall x, y :: DistinctAddresses(PoolsBetween(s.adj, x, y)) && |PoolsBetween(s.adj, x, y)| <= MAX_POOLS_PER_PAIR
  {
    forall x, y
      ensures DistinctAddresses(PoolsBetween(s.adj, x, y)) && |PoolsBetween(s.adj, x, y)| <= MAX_POOLS_PER_PAIR
    {
      assert ListOk(PoolsBetween(s.adj, x, y), s.index, x, y);
    }
  }

  /**
   Main result: an upsert puts the pool up against the others of its pair, in place of any older copy, and
   keeps the most liquid three; every other pair just loses any older copy.
   */
  lemma UpsertEffect(s: GraphState, edge: PoolEdge, x: Pubkey, y: Pubkey)
    requires Valid(s)
    ensures var before, after := PoolsBetween(s.adj, x, y), PoolsBetween(Upserted(s, edge).adj, x, y);
            if Joins(edge, x, y) then KeepsBest(after, Contenders(before, edge))
            else after == WithoutAddress(before, edge.poolAddress)
  {
    hide Valid, PoolsBetween, WithoutAddress, RemoveBoth, AddBoth, AddPool, KeepsBest, Symmetric, DistinctAddresses;
    var p, before := edge.poolAddress, PoolsBetween(s.adj, x, y);
    ValidIsSymmetric(s);
    if p in s.index && s.index[p] != (edge.mintA, edge.mintB) {
      var (a, b) := s.index[p];
      RemoveBothValid(s, p);
      var cleared := RemoveBoth(s.adj, p, a, b);
      ClearedPools(s, p, x, y);
      AddBothPools(cleared, edge);
      WithoutAddressKeepsDistinct(before, p);
      WithoutAddressTwice(before, p);
      AddKeepsBest(PoolsBetween(cleared, x, y), edge);
      AddTwiceKeepsBest(PoolsBetween(cleared, x, y), edge);
    } else {
      AddBothPools(s.adj, edge);
      AddKeepsBest(before, edge);
      AddTwiceKeepsBest(before, edge);
      if !Joins(edge, x, y) {
        NotElsewhere(s, p, x, y);
      }
    }
  }

  lemma ClearedPools(s: GraphState, p: Pubkey, x: Pubkey, y: Pubkey)
    requires Valid(s) && p in s.index
    ensures PoolsBetween(RemoveBoth(s.adj, p, s.index[p].0, s.index[p].1), x, y) == WithoutAddress(PoolsBetween(s.adj, x, y), p)
    ensures |WithoutAddress(PoolsBetween(s.adj, x, y), p)| <= |PoolsBetween(s.adj, x, y)|
  {
    hide RemoveBoth, PoolsBetween;
    RemovalEffect(s, p, x, y);
  }

  // ----- Loading a list of pools -----

  /** Only listed pools are stored, and every listed pair is joined. */
  ghost predicate Loaded(edges: seq<PoolEdge>, s: GraphState) {
    && Valid(s)
    && (forall x, y, e :: e in PoolsBetween(s.adj, x, y) ==> e in edges && Joins(e, x, y))
    && (forall e, x, y :: e in edges && Joins(e, x, y) ==> PoolsBetween(s.adj, x, y) != [])
  }

  lemma LoadStep(edges: seq<PoolEdge>, edge: PoolEdge, s: GraphState)
    requires Loaded(edges, s) && forall e :: e in edges ==> e.poolAddress != edge.poolAddress
    ensures Loaded(edges + [edge], Upserted(s, edge))
  {
    var after := Upserted(s, edge);
    UpsertedValid(s, edge);
    forall x, y
      ensures forall e :: e in PoolsBetween(after.adj, x, y) ==> e in edges + [edge] && Joins(e, x, y)
      ensures Joins(edge, x, y) || PoolsBetween(s.adj, x, y) != [] ==> PoolsBetween(after.adj, x, y) != []
    {
      LoadedPair(edges, edge, s, x, y);
    }
    hide Valid, Upserted, PoolsBetween, Joins;
  }

  lemma LoadedPair(edges: seq<PoolEdge>, edge: PoolEdge, s: GraphState, x: Pubkey, y: Pubkey)
    requires Loaded(edges, s) && forall e :: e in edges ==> e.poolAddress != edge.poolAddress
    ensures var before, after := PoolsBetween(s.adj, x, y), PoolsBetween(Upserted(s, edge).adj, x, y);
            && (forall e :: e in after ==> e in edges + [edge] && Joins(e, x, y))
            && (Joins(edge, x, y) || before != [] ==> after != [])
  {
    hide Valid, Upserted, PoolsBetween, WithoutAddress;
    UpsertEffect(s, edge, x, y);
    var before := PoolsBetween(s.adj, x, y);
    if before != [] {
      assert before[0] in before && before[0] in edges;
      assert before[0] in WithoutAddress(before, edge.poolAddress);
    }
  }

  /** Loading pools with distinct addresses into an empty graph. */
  lemma {:induction false} LoadPools(edges: seq<PoolEdge>)
    requires DistinctAddresses(edges)
    ensures Loaded(edges, BulkUpserted(Empty(), edges)) && Run([BulkUpsert(edges)]) == BulkUpserted(Empty(), edges)
  {
    if edges == [] {
      assert forall a, b :: PoolsBetween(Empty().adj, a, b) == [];
    } else {
      var init, last := edges[..|edges| - 1], edges[|edges| - 1];
      LoadPools(init);
      assert edges == init + [last];
      LoadStep(init, last, BulkUpserted(Empty(), init));
    }
    RunOne(BulkUpsert(edges));
  }

  lemma RunOne(op: GraphOp)
    ensures Run([op]) == Apply(Empty(), op)
  {
    assert [op][..0] == [];
    assert Run([]) == Empty();
  }
}
