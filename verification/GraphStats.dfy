/**
 What the graph's counters count (src/arbitrage/pool_graph.rs, refresh_stats_locked): the code adds
 up list lengths over both directions and halves the sum. Here the sum is tied to the set of pools
 the graph really holds.
 */
module GraphStatistics {
  import opened Types
  import opened PoolGraphs

  datatype GraphStats = GraphStats(totalVertices: nat, totalEdges: nat, totalPools: nat)

  type Slot = (Pubkey, Pubkey, nat)

  /** Every stored copy of a pool: from, to and position in the list. */
  ghost function Slots(adj: Adjacency, froms: set<Pubkey>): set<Slot>
    requires froms <= adj.Keys
  {
    set a, b, i | a in froms && b in adj[a] && 0 <= i < |adj[a][b]| :: (a, b, i)
  }

  ghost function SlotsFrom(adj: Adjacency, a: Pubkey, tos: set<Pubkey>): set<Slot>
    requires a in adj && tos <= adj[a].Keys
  {
    set b, i | b in tos && 0 <= i < |adj[a][b]| :: (a, b, i)
  }

  /** Every ordered pair of mints that has a list. */
  ghost function Links(adj: Adjacency, froms: set<Pubkey>): set<(Pubkey, Pubkey)>
    requires froms <= adj.Keys
  {
    set a, b | a in froms && b in adj[a] :: (a, b)
  }

  lemma {:induction false} RangeSize(a: Pubkey, b: Pubkey, n: nat)
    ensures |set i: nat | i < n :: (a, b, i)| == n
  {
    if n == 0 {
      assert (set i: nat | i < n :: (a, b, i)) == {};
    } else {
      RangeSize(a, b, n - 1);
      assert (set i: nat | i < n :: (a, b, i)) == (set i: nat | i < n - 1 :: (a, b, i)) + {(a, b, n - 1)};
    }
  }

  ghost function LinksFrom(a: Pubkey, tos: set<Pubkey>): set<(Pubkey, Pubkey)> {
    set b | b in tos :: (a, b)
  }

  lemma {:induction false} LinksFromSize(a: Pubkey, tos: set<Pubkey>)
    ensures |LinksFrom(a, tos)| == |tos|
  {
    if tos == {} {
      assert LinksFrom(a, tos) == {};
    } else {
      var c :| c in tos;
      LinksFromSize(a, tos - {c});
      assert LinksFrom(a, tos) == LinksFrom(a, tos - {c}) + {(a, c)};
    }
  }

  lemma SlotsFromStep(adj: Adjacency, a: Pubkey, tos: set<Pubkey>, b: Pubkey)
    requires a in adj && tos <= adj[a].Keys && b in adj[a] && b !in tos
    ensures |SlotsFrom(adj, a, tos + {b})| == |SlotsFrom(adj, a, tos)| + |adj[a][b]|
  {
    var added := set i: nat | i < |adj[a][b]| :: (a, b, i);
    RangeSize(a, b, |adj[a][b]|);
    assert SlotsFrom(adj, a, tos + {b}) == SlotsFrom(adj, a, tos) + added;
    assert SlotsFrom(adj, a, tos) !! added;
  }

  lemma SlotsStep(adj: Adjacency, froms: set<Pubkey>, a: Pubkey)
    requires froms <= adj.Keys && a in adj && a !in froms
    ensures |Slots(adj, froms + {a})| == |Slots(adj, froms)| + |SlotsFrom(adj, a, adj[a].Keys)|
  {
    assert Slots(adj, froms + {a}) == Slots(adj, froms) + SlotsFrom(adj, a, adj[a].Keys);
    assert Slots(adj, froms) !! SlotsFrom(adj, a, adj[a].Keys);
  }

  lemma LinksStep(adj: Adjacency, froms: set<Pubkey>, a: Pubkey)
    requires froms <= adj.Keys && a in adj && a !in froms
    ensures |Links(adj, froms + {a})| == |Links(adj, froms)| + |adj[a]|
  {
    LinksFromSize(a, adj[a].Keys);
    LinksGrow(adj, froms, a);
    assert Links(adj, froms) !! LinksFrom(a, adj[a].Keys);
  }

  lemma LinksGrow(adj: Adjacency, froms: set<Pubkey>, a: Pubkey)
    requires froms <= adj.Keys && a in adj
    ensures Links(adj, froms + {a}) == Links(adj, froms) + LinksFrom(a, adj[a].Keys)
  {
  }

  // ----- The pools the graph holds -----

  /** Addresses of the pools the graph holds, and of those that join a mint to itself. */
  ghost function Stored(adj: Adjacency): set<Pubkey> {
    set a, b, i | a in adj && b in adj[a] && 0 <= i < |adj[a][b]| :: adj[a][b][i].poolAddress
  }

  ghost function SelfLoops(adj: Adjacency): set<Pubkey> {
    set a, i | a in adj && a in adj[a] && 0 <= i < |adj[a][a]| :: adj[a][a][i].poolAddress
  }

  /** The slot of a pool in the direction of its index entry, or against it. */
  ghost function SlotOf(s: GraphState, p: Pubkey, forward: bool): Slot
    requires p in s.index
  {
    var (a, b) := if forward then s.index[p] else (s.index[p].1, s.index[p].0);
    (a, b, Position(PoolsBetween(s.adj, a, b), p))
  }

  /** A slot holds pool `p` only if it is one of `p`'s two slots. */
  lemma SlotIsForwardOrBackward(s: GraphState, a: Pubkey, b: Pubkey, i: nat)
    requires Valid(s) && i < |PoolsBetween(s.adj, a, b)|
    ensures var p := PoolsBetween(s.adj, a, b)[i].poolAddress;
            p in s.index && ((a, b, i) == SlotOf(s, p, true) || (a, b, i) == SlotOf(s, p, false))
  {
    var pools := PoolsBetween(s.adj, a, b);
    assert ListOk(pools, s.index, a, b);
    assert Joins(pools[i], a, b) && Indexed(pools[i], s.index);
    var k := Position(pools, pools[i].poolAddress);
    assert k == i;
  }

  /** A stored pool really sits in both of its slots. */
  lemma StoredInBothSlots(s: GraphState, p: Pubkey, forward: bool)
    requires Valid(s) && p in Stored(s.adj)
    ensures p in s.index && SlotOf(s, p, forward) in Slots(s.adj, s.adj.Keys)
    ensures var (a, b, i) := SlotOf(s, p, forward);
            i < |PoolsBetween(s.adj, a, b)| && PoolsBetween(s.adj, a, b)[i].poolAddress == p
    ensures p in SelfLoops(s.adj) <==> s.index[p].0 == s.index[p].1
  {
    var a, b, i :| a in s.adj && b in s.adj[a] && 0 <= i < |s.adj[a][b]| && s.adj[a][b][i].poolAddress == p;
    SlotIsForwardOrBackward(s, a, b, i);
    assert PoolsBetween(s.adj, a, b) == PoolsBetween(s.adj, b, a);
    if p in SelfLoops(s.adj) {
      var c, k :| c in s.adj && c in s.adj[c] && 0 <= k < |s.adj[c][c]| && s.adj[c][c][k].poolAddress == p;
      SlotIsForwardOrBackward(s, c, c, k);
    }
    if a == b {
      assert s.adj[a][a][i].poolAddress in SelfLoops(s.adj);
    }
  }

  ghost function SlotsOfPools(s: GraphState, pools: set<Pubkey>, forward: bool): set<Slot>
    requires pools <= s.index.Keys
  {
    set p | p in pools :: SlotOf(s, p, forward)
  }

  lemma SlotsDiffer(s: GraphState, p: Pubkey, q: Pubkey, forward: bool)
    requires Valid(s) && p in Stored(s.adj) && q in Stored(s.adj) && p != q && p in s.index && q in s.index
    ensures SlotOf(s, p, forward) != SlotOf(s, q, forward)
  {
    hide Valid, Stored;
    StoredInBothSlots(s, p, forward);
    StoredInBothSlots(s, q, forward);
  }

  lemma {:induction false} SlotsOfPoolsSize(s: GraphState, pools: set<Pubkey>, forward: bool)
    requires Valid(s) && pools <= Stored(s.adj) && pools <= s.index.Keys
    ensures |SlotsOfPools(s, pools, forward)| == |pools|
  {
    hide Valid, Stored, SlotOf;
    if pools == {} {
      assert SlotsOfPools(s, pools, forward) == {};
    } else {
      var p :| p in pools;
      SlotsOfPoolsSize(s, pools - {p}, forward);
      assert SlotsOfPools(s, pools, forward) == SlotsOfPools(s, pools - {p}, forward) + {SlotOf(s, p, forward)};
      forall q | q in pools - {p}
        ensures SlotOf(s, q, forward) != SlotOf(s, p, forward)
      {
        SlotsDiffer(s, p, q, forward);
      }
    }
  }

  lemma StoredIsIndexed(s: GraphState)
    requires Valid(s)
    ensures Stored(s.adj) <= s.index.Keys && SelfLoops(s.adj) <= Stored(s.adj)
  {
    forall p | p in Stored(s.adj)
      ensures p in s.index
    {
      StoredInBothSlots(s, p, true);
    }
  }

  lemma SlotsCovered(s: GraphState)
    requires Valid(s) && Stored(s.adj) <= s.index.Keys
    ensures Slots(s.adj, s.adj.Keys)
            == SlotsOfPools(s, Stored(s.adj), true) + SlotsOfPools(s, Stored(s.adj) - SelfLoops(s.adj), false)
  {
    var all, self := Stored(s.adj), SelfLoops(s.adj);
    var fwd, bwd := SlotsOfPools(s, all, true), SlotsOfPools(s, all - self, false);
    forall t | t in fwd + bwd
      ensures t in Slots(s.adj, s.adj.Keys)
    {
      if t in fwd {
        var p :| p in all && t == SlotOf(s, p, true);
        StoredInBothSlots(s, p, true);
      } else {
        var p :| p in all - self && t == SlotOf(s, p, false);
        StoredInBothSlots(s, p, false);
      }
    }
    forall t | t in Slots(s.adj, s.adj.Keys)
      ensures t in fwd + bwd
    {
      var (a, b, i) := t;
      SlotIsForwardOrBackward(s, a, b, i);
      var p := PoolsBetween(s.adj, a, b)[i].poolAddress;
      assert p in all;
      StoredInBothSlots(s, p, true);
    }
  }

  lemma SlotsDisjoint(s: GraphState)
    requires Valid(s) && Stored(s.adj) <= s.index.Keys
    ensures SlotsOfPools(s, Stored(s.adj), true) !! SlotsOfPools(s, Stored(s.adj) - SelfLoops(s.adj), false)
  {
    forall p, q | p in Stored(s.adj) && q in Stored(s.adj) - SelfLoops(s.adj)
      ensures SlotOf(s, p, true) != SlotOf(s, q, false)
    {
      StoredInBothSlots(s, p, true);
      StoredInBothSlots(s, q, false);
    }
  }

  /** Ordinary pools fill two slots, self-loops one. */
  lemma SlotCount(s: GraphState)
    requires Valid(s)
    ensures |Slots(s.adj, s.adj.Keys)| == 2 * |Stored(s.adj)| - |SelfLoops(s.adj)|
  {
    StoredIsIndexed(s);
    SlotsCovered(s);
    SlotsDisjoint(s);
    SlotsOfPoolsSize(s, Stored(s.adj), true);
    SlotsOfPoolsSize(s, Stored(s.adj) - SelfLoops(s.adj), false);
  }

  /** The halved sum is the number of stored pools exactly when no stored pool is a self-loop. */
  lemma TotalPoolsExactIffNoSelfLoops(s: GraphState)
    requires Valid(s)
    ensures |Slots(s.adj, s.adj.Keys)| / 2 == |Stored(s.adj)| <==> SelfLoops(s.adj) == {}
  {
    SlotCount(s);
    StoredIsIndexed(s);
  }

  /** One self-loop in an empty graph: one pool is stored, none is counted. */
  lemma SelfLoopNotCounted(e: PoolEdge)
    requires e.mintA == e.mintB
    ensures var adj := Run([Upsert(e)]).adj;
            Stored(adj) == {e.poolAddress} && |Slots(adj, adj.Keys)| / 2 == 0
  {
    var s, a := Run([Upsert(e)]), e.mintA;
    assert [Upsert(e)][..0] == [];
    assert Run([]) == Empty();
    var none: seq<PoolEdge> := [];
    assert AddPool(none, e) == [e] && AddPool([e], e) == [e];
    var inner: map<Pubkey, seq<PoolEdge>> := map[a := [e]];
    var adj: Adjacency := map[a := inner];
    assert AddDirected(map[], a, a, e) == adj;
    assert adj[a] == inner && inner[a] == [e] && inner[a := [e]] == inner && adj[a := inner] == adj;
    assert AddDirected(adj, a, a, e) == adj;
    assert s.adj == adj;
    assert Slots(s.adj, s.adj.Keys) == {(a, a, 0)};
  }

  // ----- The edges the graph counts -----

  /** Every joined pair of mints once, smaller mint first. */
  ghost function Pairs(adj: Adjacency): set<(Pubkey, Pubkey)> {
    set a, b | a in adj && b in adj[a] && a <= b :: (a, b)
  }

  /** Mints joined to themselves. */
  ghost function SelfPairs(adj: Adjacency): set<(Pubkey, Pubkey)> {
    set a | a in adj && a in adj[a] :: (a, a)
  }

  ghost function Mirror(pairs: set<(Pubkey, Pubkey)>): set<(Pubkey, Pubkey)> {
    set q | q in pairs :: (q.1, q.0)
  }

  lemma {:induction false} MirrorSize(pairs: set<(Pubkey, Pubkey)>)
    ensures |Mirror(pairs)| == |pairs|
  {
    if pairs != {} {
      var q :| q in pairs;
      MirrorSize(pairs - {q});
      assert (q.1, q.0) !in Mirror(pairs - {q});
      assert Mirror(pairs) == Mirror(pairs - {q}) + {(q.1, q.0)};
    }
  }

  /** Both directions of a link are links. */
  lemma LinkedBothWays(s: GraphState, a: Pubkey, b: Pubkey)
    requires Valid(s) && a in s.adj && b in s.adj[a]
    ensures b in s.adj && a in s.adj[b]
  {
    assert PoolsBetween(s.adj, a, b) == PoolsBetween(s.adj, b, a) != [];
  }

  /** Ordinary pairs are two links, self-loops one. */
  lemma LinkCount(s: GraphState)
    requires Valid(s)
    ensures |Links(s.adj, s.adj.Keys)| == 2 * |Pairs(s.adj)| - |SelfPairs(s.adj)|
  {
    hide Links, Pairs, SelfPairs, Mirror;
    var up, self := Pairs(s.adj), SelfPairs(s.adj);
    MirrorSize(up - self);
    LinksAreMirrored(s);
  }

  lemma LinksAreMirrored(s: GraphState)
    requires Valid(s)
    ensures var up, self := Pairs(s.adj), SelfPairs(s.adj);
            && self <= up && Links(s.adj, s.adj.Keys) == up + Mirror(up - self) && up !! Mirror(up - self)
  {
    hide Valid;
    var links, up, self := Links(s.adj, s.adj.Keys), Pairs(s.adj), SelfPairs(s.adj);
    var down := Mirror(up - self);
    forall q: (Pubkey, Pubkey)
      ensures q in links <==> q in up + down
      ensures !(q in up && q in down)
    {
      LinkIsPair(s, q.0, q.1);
      LinkIsPair(s, q.1, q.0);
      assert q in down <==> (q.1, q.0) in up - self;
    }
  }

  lemma LinkIsPair(s: GraphState, a: Pubkey, b: Pubkey)
    requires Valid(s)
    ensures (a, b) in Links(s.adj, s.adj.Keys) <==> a in s.adj && b in s.adj[a]
    ensures (a, b) in Pairs(s.adj) <==> a <= b && a in s.adj && b in s.adj[a]
    ensures (a, b) in SelfPairs(s.adj) <==> a == b && a in s.adj && b in s.adj[a]
    ensures a in s.adj && b in s.adj[a] ==> b in s.adj && a in s.adj[b]
  {
    hide Valid;
    if a in s.adj && b in s.adj[a] {
      LinkedBothWays(s, a, b);
    }
  }

  /** The published edge count is the number of joined pairs exactly when no mint is joined to itself. */
  lemma TotalEdgesExactIffNoSelfPairs(s: GraphState)
    requires Valid(s)
    ensures |Links(s.adj, s.adj.Keys)| / 2 == |Pairs(s.adj)| <==> SelfPairs(s.adj) == {}
  {
    LinkCount(s);
  }
}
