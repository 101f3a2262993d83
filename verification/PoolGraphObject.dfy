/** The mutable pool graph object (src/arbitrage/pool_graph.rs). */
module PoolGraphObject {
  import opened Types
  import opened Sorting
  import opened PoolGraphs
  import opened GraphStatistics

  ghost function Neighborhood(adj: Adjacency, mint: Pubkey): map<Pubkey, seq<PoolEdge>> {
    if mint in adj then adj[mint] else map[]
  }

  /** `list` holds each mint of `done` exactly once, with its pools in descending liquidity. */
  ghost predicate ListsExactly(
    list: seq<(Pubkey, seq<PoolEdge>)>, neighbors: map<Pubkey, seq<PoolEdge>>, done: set<Pubkey>)
  {
    && |list| == |done|
    && DistinctMints(list)
    && (forall i :: 0 <= i < |list| ==>
          list[i].0 in done && list[i].0 in neighbors && list[i].1 == Sort(neighbors[list[i].0], MoreLiquid))
    && (forall v :: v in done ==> Mentions(list, v))
  }

  ghost predicate DistinctMints(list: seq<(Pubkey, seq<PoolEdge>)>) {
    forall i, j :: 0 <= i < j < |list| ==> list[i].0 != list[j].0
  }

  ghost predicate Mentions(list: seq<(Pubkey, seq<PoolEdge>)>, v: Pubkey) {
    exists i :: 0 <= i < |list| && list[i].0 == v
  }

  lemma ListsNone(neighbors: map<Pubkey, seq<PoolEdge>>)
    ensures ListsExactly([], neighbors, {})
  {
  }

  lemma ListsOneMore(
    list: seq<(Pubkey, seq<PoolEdge>)>, neighbors: map<Pubkey, seq<PoolEdge>>, done: set<Pubkey>, v: Pubkey)
    requires ListsExactly(list, neighbors, done) && v in neighbors && v !in done
    ensures ListsExactly(list + [(v, Sort(neighbors[v], MoreLiquid))], neighbors, done + {v})
  {
    hide Mentions, MoreLiquid, Sort, DistinctMints;
    var last := (v, Sort(neighbors[v], MoreLiquid));
    var longer := list + [last];
    DistinctMore(list, done, last);
    forall i | 0 <= i < |longer|
      ensures longer[i].0 in done + {v} && longer[i].0 in neighbors && longer[i].1 == Sort(neighbors[longer[i].0], MoreLiquid)
    {
      assert longer[i] == if i < |list| then list[i] else last;
    }
    forall w | w in done + {v}
      ensures Mentions(longer, w)
    {
      MentionsMore(list, last, w);
    }
  }

  lemma DistinctMore(list: seq<(Pubkey, seq<PoolEdge>)>, done: set<Pubkey>, last: (Pubkey, seq<PoolEdge>))
    requires DistinctMints(list) && (forall i :: 0 <= i < |list| ==> list[i].0 in done) && last.0 !in done
    ensures DistinctMints(list + [last])
  {
  }

  lemma MentionsMore(list: seq<(Pubkey, seq<PoolEdge>)>, last: (Pubkey, seq<PoolEdge>), w: Pubkey)
    requires w == last.0 || Mentions(list, w)
    ensures Mentions(list + [last], w)
  {
    var longer := list + [last];
    if w == last.0 {
      assert longer[|list|].0 == w;
    } else {
      var i :| 0 <= i < |list| && list[i].0 == w;
      assert longer[i].0 == w;
    }
  }

  ghost predicate ListsNeighbors(list: seq<(Pubkey, seq<PoolEdge>)>, adj: Adjacency, mint: Pubkey) {
    ListsExactly(list, Neighborhood(adj, mint), Neighborhood(adj, mint).Keys)
  }

  ghost predicate StatsMatch(stats: GraphStats, adj: Adjacency) {
    && stats.totalVertices == |adj|
    && stats.totalEdges == |Links(adj, adj.Keys)| / 2
    && stats.totalPools == |Slots(adj, adj.Keys)| / 2
  }

  lemma BulkStep(s: GraphState, edges: seq<PoolEdge>, i: nat)
    requires i < |edges|
    ensures BulkUpserted(s, edges[..i + 1]) == Upserted(BulkUpserted(s, edges[..i]), edges[i])
  {
    hide Upserted;
    assert edges[..i + 1][..i] == edges[..i];
  }

  class PoolGraph {
    var adj: Adjacency
    var poolIndex: PoolIndex
    var stats: GraphStats

    ghost function State(): GraphState
      reads this
    {
      GraphState(adj, poolIndex)
    }

    ghost predicate Valid()
      reads this
    {
      PoolGraphs.Valid(State()) && StatsMatch(stats, adj)
    }

    constructor ()
      ensures Valid() && State() == Empty()
    {
      adj, poolIndex, stats := map[], map[], GraphStats(0, 0, 0);
      new;
      EveryRunIsValid([]);
      assert Links(adj, adj.Keys) == {} && Slots(adj, adj.Keys) == {};
    }

    method Clear()
      modifies this
      ensures Valid() && State() == Apply(old(State()), GraphOp.Clear)
    {
      adj, poolIndex, stats := map[], map[], GraphStats(0, 0, 0);
      EveryRunIsValid([]);
      assert Links(adj, adj.Keys) == {} && Slots(adj, adj.Keys) == {};
    }

    method UpsertPool(edge: PoolEdge)
      requires Valid()
      modifies this
      ensures Valid() && State() == Apply(old(State()), Upsert(edge))
    {
      UpsertedValid(State(), edge);
      UpsertInto(edge);
      RefreshStats();
    }

    method BulkUpsert(edges: seq<PoolEdge>)
      requires Valid()
      modifies this
      ensures Valid() && State() == Apply(old(State()), GraphOp.BulkUpsert(edges))
    {
      hide Upserted, PoolGraphs.Valid, StatsMatch;
      for i := 0 to |edges|
        invariant State() == BulkUpserted(old(State()), edges[..i])
      {
        BulkStep(old(State()), edges, i);
        UpsertInto(edges[i]);
      }
      assert edges[..|edges|] == edges;
      BulkUpsertedValid(old(State()), edges);
      RefreshStats();
    }

    method RemovePool(address: Pubkey)
      requires Valid()
      modifies this
      ensures Valid() && State() == Apply(old(State()), Remove(address))
      ensures forall a, b :: !HasAddress(PoolsBetween(adj, a, b), address)
    {
      RemovedValid(State(), address);
      if address in poolIndex {
        var (a, b) := poolIndex[address];
        poolIndex := poolIndex - {address};
        RemovePoolFromAdj(address, a, b);
        RefreshStats();
      }
    }

    /** Every neighbor of `mint`, in any order: the order of a hash map is not fixed. */
    method Neighbors(mint: Pubkey) returns (list: seq<(Pubkey, seq<PoolEdge>)>)
      ensures ListsNeighbors(list, adj, mint)
    {
      list := [];
      hide ListsExactly;
      var neighbors := if mint in adj then adj[mint] else map[];
      var todo := neighbors.Keys;
      ghost var done: set<Pubkey> := {};
      ListsNone(neighbors);
      while todo != {}
        invariant todo + done == neighbors.Keys && todo !! done
        invariant ListsExactly(list, neighbors, done)
        decreases todo
      {
        var v :| v in todo;
        ListsOneMore(list, neighbors, done, v);
        list := list + [(v, Sort(neighbors[v], MoreLiquid))];
        todo, done := todo - {v}, done + {v};
      }
      assert done == neighbors.Keys;
    }

    method HasToken(mint: Pubkey) returns (found: bool)
      ensures found <==> mint in adj
    {
      found := mint in adj;
    }

    method UpsertInto(edge: PoolEdge)
      modifies this`adj, this`poolIndex
      ensures State() == Upserted(old(State()), edge)
    {
      if edge.poolAddress in poolIndex {
        var (oldA, oldB) := poolIndex[edge.poolAddress];
        if oldA != edge.mintA || oldB != edge.mintB {
          RemovePoolFromAdj(edge.poolAddress, oldA, oldB);
        }
      }
      AddEdgeToAdj(edge.mintA, edge.mintB, edge);
      AddEdgeToAdj(edge.mintB, edge.mintA, edge);
      poolIndex := poolIndex[edge.poolAddress := (edge.mintA, edge.mintB)];
    }

    method AddEdgeToAdj(from: Pubkey, to: Pubkey, edge: PoolEdge)
      modifies this`adj
      ensures adj == AddDirected(old(adj), from, to, edge)
    {
      var neighbors := if from in adj then adj[from] else map[];
      var pools := if to in neighbors then neighbors[to] else [];
      var i := Position(pools, edge.poolAddress);
      if i < |pools| {
        pools := pools[i := edge];
      } else {
        pools := pools + [edge];
        if |pools| > MAX_POOLS_PER_PAIR {
          pools := Sort(pools, MoreLiquid);
          pools := pools[..MAX_POOLS_PER_PAIR];
        }
      }
      adj := adj[from := neighbors[to := pools]];
    }

    method RemovePoolFromAdj(address: Pubkey, a: Pubkey, b: Pubkey)
      modifies this`adj
      ensures adj == RemoveBoth(old(adj), address, a, b)
    {
      RemoveOneDirection(address, a, b);
      RemoveOneDirection(address, b, a);
    }

    method RemoveOneDirection(address: Pubkey, from: Pubkey, to: Pubkey)
      modifies this`adj
      ensures adj == RemoveDirected(old(adj), address, from, to)
    {
      if from in adj {
        var neighbors: map<Pubkey, seq<PoolEdge>> := adj[from];
        if to in neighbors {
          var pools := WithoutAddress(neighbors[to], address);
          neighbors := if pools == [] then neighbors - {to} else neighbors[to := pools];
        }
        adj := if neighbors == map[] then adj - {from} else adj[from := neighbors];
      }
    }

    method RefreshStats()
      modifies this`stats
      ensures StatsMatch(stats, adj)
    {
      var edgeCount, poolCount := 0, 0;
      ghost var done: set<Pubkey> := {};
      var todo := adj.Keys;
      NothingCounted(adj);
      hide Links, Slots, SlotsFrom;
      while todo != {}
        invariant todo <= adj.Keys && done == adj.Keys - todo
        invariant edgeCount == |Links(adj, done)| && poolCount == |Slots(adj, done)|
        decreases todo
      {
        var a :| a in todo;
        edgeCount := edgeCount + |adj[a]|;
        var n := CountPoolsFrom(a);
        poolCount := poolCount + n;
        SlotsStep(adj, done, a);
        LinksStep(adj, done, a);
        todo, done := todo - {a}, done + {a};
      }
      assert done == adj.Keys;
      stats := GraphStats(|adj|, edgeCount / 2, poolCount / 2);
    }

    method CountPoolsFrom(a: Pubkey) returns (n: nat)
      requires a in adj
      ensures n == |SlotsFrom(adj, a, adj[a].Keys)|
    {
      n := 0;
      ghost var done: set<Pubkey> := {};
      var todo := adj[a].Keys;
      assert SlotsFrom(adj, a, done) == {};
      while todo != {}
        invariant todo + done == adj[a].Keys && todo !! done
        invariant n == |SlotsFrom(adj, a, done)|
        decreases todo
      {
        var b :| b in todo;
        n := n + |adj[a][b]|;
        SlotsFromStep(adj, a, done, b);
        todo, done := todo - {b}, done + {b};
      }
      assert done == adj[a].Keys;
    }
  }

  lemma NothingCounted(adj: Adjacency)
    ensures Links(adj, {}) == {} && Slots(adj, {}) == {}
  {
  }

  /** On every valid graph the published edge count is exact if and only if no mint is joined to itself. */
  lemma PublishedEdgeCount(g: PoolGraph)
    requires g.Valid()
    ensures g.stats.totalEdges == |Pairs(g.adj)| <==> SelfPairs(g.adj) == {}
  {
    TotalEdgesExactIffNoSelfPairs(g.State());
  }

  /** On every valid graph the published pool count is exact if and only if no self-loop is stored. */
  lemma PublishedPoolCount(g: PoolGraph)
    requires g.Valid()
    ensures g.stats.totalPools == |Stored(g.adj)| <==> SelfLoops(g.adj) == {}
  {
    TotalPoolsExactIffNoSelfLoops(g.State());
  }
}
