/**
 The bound costs real cycles: a graph of four tokens on which every run of the search
 (src/arbitrage/cycle_finder.rs:156-281), started with an empty ratio cache and with beam and result limit
 to spare, reports nothing although a cycle worth 1576 basis points is there and 1200 are asked for.
 */
module MissedCycle {
  import opened Types
  import opened Wrappers
  import opened Sorting
  import opened PoolGraphs
  import opened GraphEffects
  import opened PoolGraphObject
  import opened SearchNodes
  import opened PoolRanking
  import opened SearchSubgraph
  import opened SearchPaths
  import opened BeamTrace
  import opened SearchAccounting
  import opened SearchTrace
  import opened SearchBound
  import opened CycleFinder

  // ----- The market -----

  const B: Pubkey := 0
  const X: Pubkey := 1
  const Y: Pubkey := 2
  const Z: Pubkey := 3

  function Edges(): seq<PoolEdge> {
    [PoolEdge(10, Orca, B, X, 150_000.0, 0, 0), PoolEdge(11, Orca, B, Y, 100_000.0, 0, 0),
     PoolEdge(12, Orca, X, Y, 100_000.0, 0, 0), PoolEdge(13, Orca, X, Z, 100_000.0, 0, 0),
     PoolEdge(14, Orca, B, Z, 100_000.0, 0, 0)]
  }

  /** What 100 of `u` buy in `v`: five one-way hops. */
  function Pays(u: Pubkey, v: Pubkey): Option<nat> {
    if u == B && v == X then Some(90)
    else if u == B && v == Y then Some(105)
    else if u == Y && v == X then Some(105)
    else if u == X && v == Z then Some(100)
    else if u == Z && v == B then Some(105)
    else None
  }

  function F(): Frame {
    Frame(
      Market(Run([BulkUpsert(Edges())]).adj,
             QuoteProvider((pool: Pubkey, dex: DexType, u: Pubkey, v: Pubkey, amount: nat) => Pays(u, v), (pool: Pubkey) => true),
             RankerConfig(100, 100_000.0, 0.3, 1.5)),
      CycleFinderConfig(10, 4, 1200, 10, B, 3), None)
  }

  /** The cycle in question. */
  const GOOD: Path := [B, Y, X, Z, B]

  lemma Settings()
    ensures var f := F();
            f.Base() == B && f.config == CycleFinderConfig(10, 4, 1200, 10, B, 3) && f.target.None? && f.MinMultiplier() == 1.12
  {
  }

  lemma EdgesLoaded()
    ensures Valid(Run([BulkUpsert(Edges())])) && Loaded(Edges(), Run([BulkUpsert(Edges())]))
  {
    LoadPools(Edges());
  }

  // ----- Its ranking -----

  function ScoreOf(u: Pubkey, v: Pubkey): real {
    if u == B && v == X then 1.5 else 1.0
  }

  lemma OnlyPool(e: PoolEdge, u: Pubkey, v: Pubkey)
    requires e in Edges() && Joins(e, u, v) && Pays(u, v).Some?
    ensures Clamp(e.liquidityUsd / 100_000.0, 0.3, 1.5) == ScoreOf(u, v)
  {
  }

  lemma PayingPairIsJoined(u: Pubkey, v: Pubkey)
    requires Pays(u, v).Some?
    ensures exists e :: e in Edges() && Joins(e, u, v)
  {
    var edges := Edges();
    assert edges[0] in edges && edges[1] in edges && edges[2] in edges && edges[3] in edges && edges[4] in edges;
    assert Joins(edges[0], u, v) || Joins(edges[1], u, v) || Joins(edges[2], u, v) || Joins(edges[3], u, v) || Joins(edges[4], u, v);
  }

  lemma Single(e: PoolEdge, u: Pubkey, v: Pubkey)
    ensures var r := F().market.RankSingle(e, u, v);
            && (r.Some? <==> Pays(u, v).Some?)
            && (r.Some? ==> r.value == RankedPool(e, Pays(u, v).value as real / 100.0, Clamp(e.liquidityUsd / 100_000.0, 0.3, 1.5)))
  {
    hide Run, Pays, Clamp;
  }

  /** The ranking of every pair: usable exactly if quoted, with that ratio and liquidity score. */
  lemma Ranking(u: Pubkey, v: Pubkey)
    ensures var ranked := F().market.Ranked(u, v);
            && (ranked != [] <==> Pays(u, v).Some?)
            && (forall r :: r in ranked ==> Pays(u, v).Some? && r.edgeRatio == Pays(u, v).value as real / 100.0 && r.liquidityScore == ScoreOf(u, v))
  {
    hide Market.Ranked, Run, Market.RankSingle, Pays, Edges, Clamp, Joins, ScoreOf, Valid;
    var m := F().market;
    RankedMembers(m, u, v);
    EdgesLoaded();
    var ranked := m.Ranked(u, v);
    assert ranked == [] || ranked[0] in ranked;
    forall r | r in ranked
      ensures Pays(u, v).Some? && r.edgeRatio == Pays(u, v).value as real / 100.0 && r.liquidityScore == ScoreOf(u, v)
    {
      Single(r.edge, u, v);
      OnlyPool(r.edge, u, v);
    }
    if Pays(u, v).Some? {
      PayingPairIsJoined(u, v);
      var e := PoolsBetween(m.adj, u, v)[0];
      assert e in PoolsBetween(m.adj, u, v);
      Single(e, u, v);
      assert m.RankSingle(e, u, v).value in ranked;
    }
  }

  /** One hop of the search. */
  lemma StepFacts(p: Path, v: Pubkey)
    requires p != []
    ensures F().CanStep(p, v) <==>
            |p| - 1 < 4 && !F().Closed(p) && Pays(p[|p| - 1], v).Some? && (if v == B then |p| > 1 else v !in p)
    ensures Pays(p[|p| - 1], v).Some? ==>
              F().market.Ranked(p[|p| - 1], v) != []
              && F().HopOf(p[|p| - 1], v).ratio == Pays(p[|p| - 1], v).value as real / 100.0
              && F().HopOf(p[|p| - 1], v).liquidityScore == ScoreOf(p[|p| - 1], v)
  {
    hide Market.Ranked, F, Pays, ScoreOf;
    Settings();
    Ranking(p[|p| - 1], v);
    var ranked := F().market.Ranked(p[|p| - 1], v);
    if ranked != [] {
      assert ranked[0] in ranked;
    }
  }

  /** One hop of a path: its profit and score. */
  lemma Walk(p: Path, v: Pubkey)
    requires F().SearchPath(p) && |p| - 1 < 4 && !F().Closed(p) && Pays(p[|p| - 1], v).Some? && (if v == B then |p| > 1 else v !in p)
    requires 90 <= Pays(p[|p| - 1], v).value <= 105 && 0.0 <= F().NodeOf(p).profit <= 5.0
    ensures F().SearchPath(p + [v])
    ensures F().NodeOf(p + [v]).profit == F().NodeOf(p).profit * (Pays(p[|p| - 1], v).value as real / 100.0)
    ensures F().NodeOf(p + [v]).score == F().NodeOf(p + [v]).profit * ScoreOf(p[|p| - 1], v)
  {
    hide Market.Ranked, F, Pays, ScoreOf, Frame.SearchPath, Frame.NodeOf, Frame.CanStep, Frame.HopOf;
    PathStartsAtBase(F(), p);
    StepFacts(p, v);
    NodeStep(F(), p, v);
    Expanding(F().NodeOf(p), F().HopOf(p[|p| - 1], v), Pays(p[|p| - 1], v).value as real / 100.0);
  }

  lemma Expanding(node: SearchNode, hop: Hop, ratio: real)
    requires hop.ratio == ratio && MIN_EDGE_RATIO <= ratio <= MAX_EDGE_RATIO && 0.0 <= node.profit <= 5.0
    ensures Expand(node, hop).profit == node.profit * ratio
    ensures Expand(node, hop).score == Expand(node, hop).profit * hop.liquidityScore
  {
    hide ClampEdgeRatio;
    MulMono(node.profit, 5.0, ratio, 2.0);
    assert Uncapped(node.profit, ratio) == node.profit * ratio;
  }

  // ----- Its paths -----

  /** All that matters about the few paths there are. */
  lemma Paths()
    ensures var f := F();
            && f.SearchPath([B]) && f.NodeOf([B]).profit == 1.0
            && f.SearchPath([B, X]) && f.NodeOf([B, X]).profit == 0.9 && f.NodeOf([B, X]).score == 1.35
            && f.SearchPath([B, Y]) && f.NodeOf([B, Y]).score == 1.05
            && f.SearchPath([B, Y, X]) && f.NodeOf([B, Y, X]).profit == 1.1025
            && f.SearchPath([B, X, Z, B]) && f.NodeOf([B, X, Z, B]).profit < 1.0
            && f.SearchPath(GOOD) && f.NodeOf(GOOD).profit == 1.157625
  {
    hide F, Frame.SearchPath, Frame.NodeOf;
    Settings();
    StartNode();
    Walk([B], X);
    assert [B] + [X] == [B, X];
    Walk([B], Y);
    assert [B] + [Y] == [B, Y];
    Walk([B, Y], X);
    assert [B, Y] + [X] == [B, Y, X];
    Walk([B, X], Z);
    assert [B, X] + [Z] == [B, X, Z];
    Walk([B, X, Z], B);
    assert [B, X, Z] + [B] == [B, X, Z, B];
    Walk([B, Y, X], Z);
    assert [B, Y, X] + [Z] == [B, Y, X, Z];
    Walk([B, Y, X, Z], B);
    assert [B, Y, X, Z] + [B] == GOOD;
  }

  lemma StartNode()
    ensures F().SearchPath([B]) && F().NodeOf([B]) == Start(B)
  {
    hide F;
    Settings();
    StartAccounted(F());
  }

  lemma UnfoldPath(f: Frame, p: Path)
    requires f.SearchPath(p) && |p| > 1
    ensures f.SearchPath(Parent(p)) && Parent(p) != [] && f.CanStep(Parent(p), p[|p| - 1])
  {
    hide Frame.CanStep;
  }

  /** How a path of more than one token came about. */
  lemma LastStep(p: Path)
    requires F().SearchPath(p) && |p| > 1
    ensures F().SearchPath(Parent(p)) && !F().Closed(Parent(p)) && Pays(p[|p| - 2], p[|p| - 1]).Some?
  {
    hide F, Pays, Frame.CanStep, Frame.SearchPath;
    UnfoldPath(F(), p);
    StepFacts(Parent(p), p[|p| - 1]);
  }

  lemma OpenAtBase(p: Path)
    requires F().SearchPath(p) && !F().Closed(p) && p[|p| - 1] == B
    ensures p == [B]
  {
    Settings();
    hide F;
    PathStartsAtBase(F(), p);
  }

  lemma PathsToY(p: Path)
    requires F().SearchPath(p) && p[|p| - 1] == Y
    ensures p == [B, Y]
  {
    hide F, Frame.SearchPath;
    Settings();
    PathStartsAtBase(F(), p);
    LastStep(p);
    OpenAtBase(Parent(p));
    assert p == Parent(p) + [Y];
  }

  lemma PathsToX(p: Path)
    requires F().SearchPath(p) && p[|p| - 1] == X
    ensures p == [B, X] || p == [B, Y, X]
  {
    hide F, Frame.SearchPath;
    Settings();
    PathStartsAtBase(F(), p);
    LastStep(p);
    if p[|p| - 2] == B {
      OpenAtBase(Parent(p));
    } else {
      PathsToY(Parent(p));
    }
    assert p == Parent(p) + [X];
  }

  lemma Cycles(p: Path)
    requires F().SearchPath(p) && F().Closed(p)
    ensures p == [B, X, Z, B] || p == GOOD
  {
    hide F, Frame.SearchPath;
    Settings();
    LastStep(p);
    var q := Parent(p);
    PathStartsAtBase(F(), q);
    LastStep(q);
    PathStartsAtBase(F(), Parent(q));
    PathsToX(Parent(q));
    assert p == Parent(q) + [Z, B];
  }

  lemma FirstSteps(p: Path)
    requires F().SearchPath(p) && |p| == 2
    ensures p == [B, X] || p == [B, Y]
  {
    hide F, Frame.SearchPath;
    Settings();
    LastStep(p);
    PathStartsAtBase(F(), p);
  }

  /** The cycle is a candidate, and it qualifies. */
  lemma GoodCycle()
    ensures Candidate(F(), GOOD) && F().SearchPath(GOOD) && F().Qualifies(GOOD)
    ensures CycleOf(F(), GOOD).estimatedReturnBps == 1576
  {
    hide F, Frame.SearchPath, Frame.NodeOf, Market.Ranked;
    Settings();
    Paths();
    forall i | 0 <= i < 4
      ensures F().market.Ranked(GOOD[i], GOOD[i + 1]) != [] && GOOD[i + 1] in Near(F().market.adj, GOOD[i])
    {
      Ranking(GOOD[i], GOOD[i + 1]);
      RankedTokensAreNeighbors(F().market, GOOD[i], GOOD[i + 1]);
    }
    CycleReturn(F(), GOOD);
    assert Round(1576.25) == 1576;
  }

  lemma CycleReturn(f: Frame, p: Path)
    requires f.SearchPath(p) && f.Closed(p)
    ensures CycleOf(f, p).estimatedReturnBps == ProfitToReturnBps(f.NodeOf(p).profit).0
  {
    hide Frame.SearchPath, Frame.NodeOf, Market.Ranked, Round;
    PathStartsAtBase(f, p);
    NodeShape(f, p);
    PathShape(f, p);
  }

  // ----- Every run misses it -----

  /** Some pushed node accounts for a positive count. */
  lemma {:induction false} SomePushed(log: Log, d: nat, s: real) returns (i: nat)
    requires PushedAtLeast(log, d, s) > 0
    ensures i < |log| && log[i].pushed && log[i].node.depth == d && log[i].node.score >= s
  {
    var n := |log| - 1;
    if log[n].pushed && log[n].node.depth == d && log[n].node.score >= s {
      i := n;
    } else {
      i := SomePushed(log[..n], d, s);
    }
  }

  /** What is needed of a run: its record is a true one. */
  ghost predicate IsRun(results: seq<ArbCycle>, log: Log, account: Account) {
    && LogOk(F(), log) && Traced(F(), log, account) && Dominated(log, 10) && ConsultedExactly(F(), map[], account)
    && (forall p :: p in account.popped ==> Settled(F(), log, account, results, p))
  }

  lemma GuaranteesRun(results: seq<ArbCycle>, log: Log, account: Account)
    requires Guarantees(F(), map[], results, log, account)
    ensures IsRun(results, log, account) && ResultsOk(F(), account, results)
  {
    Settings();
    hide F, WellFormed, LogOk, Traced, Dominated, Followed, ConsultedExactly, Settled, Accounted, Candidate, Answered, ResultsOk, Sorted;
  }

  /** A popped path's parent was popped before it, and passed the bound. */
  lemma ParentPopped(results: seq<ArbCycle>, log: Log, account: Account, i: nat) returns (j: nat)
    requires IsRun(results, log, account) && i < |account.popped| && account.popped[i] != [B]
    ensures j < i && account.popped[i] != [] && account.popped[j] == Parent(account.popped[i])
    ensures Passed(F(), account, account.popped[j])
  {
    Settings();
    hide F, Passed, LogOk, BestFirst, Dominated, ConsultedExactly, Settled, DistinctPaths, Bounded;
    assert Origin(F(), log, account, i);
    var p := account.popped[i];
    j :| 0 <= j < i && account.popped[..i][j] == Parent(p);
    var k :| 0 <= k < |log| && log[k].pushed && log[k].node.path == p;
    assert Generates(F(), account, log[k].node.path);
  }

  lemma PoppedPath(results: seq<ArbCycle>, log: Log, account: Account, i: nat)
    requires IsRun(results, log, account) && i < |account.popped|
    ensures F().SearchPath(account.popped[i])
  {
    hide F, Traced, LogOk, Dominated, ConsultedExactly;
    assert Settled(F(), log, account, results, account.popped[i]);
  }

  /** Base was expanded, so both its neighbors were generated. */
  lemma XLogged(results: seq<ArbCycle>, log: Log, account: Account) returns (k: nat)
    requires IsRun(results, log, account) && [B] in account.popped && Passed(F(), account, [B])
    ensures k < |log| && log[k].node.path == [B, X]
  {
    hide F, Traced, LogOk, Dominated, ConsultedExactly, Frame.SearchPath, Cut, Frame.CanStep;
    Settings();
    assert Settled(F(), log, account, results, [B]);
    StepFacts([B], X);
    assert F().CanStep([B], X);
    assert [B] + [X] == [B, X];
    k :| 0 <= k < |log| && log[k].node.path == [B, X];
  }

  lemma LoggedNode(results: seq<ArbCycle>, log: Log, account: Account, k: nat)
    requires IsRun(results, log, account) && k < |log|
    ensures F().NodeOk(log[k].node) && log[k].node.depth == |log[k].node.path| - 1
  {
    hide F, Traced, Dominated, ConsultedExactly, Frame.SearchPath, Settled, Frame.NodeOf;
    assert F().NodeOk(log[k].node);
    NodeShape(F(), log[k].node.path);
  }

  /** Nothing of its depth outscores it, so the beam cannot have discarded it. */
  lemma XPushed(results: seq<ArbCycle>, log: Log, account: Account, k: nat)
    requires IsRun(results, log, account) && k < |log| && log[k].node.path == [B, X]
    ensures log[k].pushed && log[k].node.score == 1.35
  {
    Paths();
    hide F, ConsultedExactly, Frame.SearchPath, Settled, Frame.NodeOf, PopTraced, BestFirst, Generates, LogOk;
    LoggedNode(results, log, account, k);
    if !log[k].pushed {
      var i := SomePushed(log[..k], 1, 1.35);
      assert log[..k][i] == log[i];
      LoggedNode(results, log, account, i);
      FirstSteps(log[i].node.path);
      OtherPath(log, i, k);
    }
  }

  /** X is popped before Y, because it scores higher. */
  lemma XBeforeY(results: seq<ArbCycle>, log: Log, account: Account, i: nat) returns (j: nat)
    requires IsRun(results, log, account) && i < |account.popped| && account.popped[i] == [B, Y]
    ensures j < i && account.popped[j] == [B, X]
  {
    Paths();
    hide F, ConsultedExactly, Frame.SearchPath, Settled, Frame.NodeOf, PopTraced, LogTraced, LogOk, Dominated, Passed;
    var b := ParentPopped(results, log, account, i);
    assert Parent([B, Y]) == [B];
    var k := XLogged(results, log, account);
    XPushed(results, log, account, k);
    assert NotBefore(F(), log, account, i, k);
    assert Parent([B, X]) == [B] && account.popped[..i][b] == [B];
    assert [B, X] in account.popped[..i];
    j :| 0 <= j < i && account.popped[..i][j] == [B, X];
  }

  /** The pops of the two paths to X: no third path ends there. */
  lemma OnlyX(results: seq<ArbCycle>, log: Log, account: Account, j: nat, u: nat)
    requires IsRun(results, log, account) && j < |account.popped| && u < j
    requires account.popped[u] != [] && account.popped[u][|account.popped[u]| - 1] == X && account.popped[j] == [B, X]
    ensures account.popped[u] == [B, Y, X]
  {
    hide F, ConsultedExactly, Frame.SearchPath, Settled, LogTraced, LogOk, Dominated, BestFirst, Origin, Bounded;
    PoppedPath(results, log, account, u);
    PathsToX(account.popped[u]);
    assert account.popped[u] != account.popped[j];
  }

  /** The first time X is popped its ratio is unknown, so the bound lets it pass. */
  lemma XPasses(results: seq<ArbCycle>, log: Log, account: Account, i: nat, j: nat)
    requires IsRun(results, log, account) && j < i < |account.popped| && account.popped[j] == [B, X] && account.popped[i] == [B, Y]
    ensures Passed(F(), account, [B, X])
  {
    Paths();
    Settings();
    hide F, Frame.SearchPath, Settled, LogOk, Dominated, Frame.NodeOf, Rankable, IsBestRatio, Passed;
    assert [B, X] in account.consulted by {
      ConsultedX(results, log, account, j);
    }
    assert ConsultedAt(F(), map[], account, j);
    if ExpandedBefore(F(), account, j, X) {
      var u :| 0 <= u < j && u < |account.popped| && ExpandedAt(F(), account, u, X);
      OnlyX(results, log, account, j, u);
      var y := ParentPopped(results, log, account, u);
    }
    BoundAtX(account);
  }

  lemma ConsultedX(results: seq<ArbCycle>, log: Log, account: Account, j: nat)
    requires IsRun(results, log, account) && j < |account.popped| && account.popped[j] == [B, X]
    ensures [B, X] in account.consulted
  {
    Settings();
    hide F, ConsultedExactly, Settled, LogTraced, LogOk, Dominated, BestFirst, Origin, DistinctPaths;
    assert Bounded(F(), [B, X]);
  }

  lemma BoundAtX(account: Account)
    requires [B, X] in account.consulted && account.consulted[[B, X]] == OPTIMISTIC_RATIO
    ensures Passed(F(), account, [B, X])
  {
    Paths();
    Settings();
    hide F, Frame.SearchPath, Frame.NodeOf;
    assert Pow(1.5, 3) == 3.375 by {
      assert Pow(1.5, 1) == 1.5;
      assert Pow(1.5, 2) == 2.25;
    }
  }

  /** Out of X there is one usable hop, at ratio 1. */
  lemma BestFromX(x: real)
    requires IsBestRatio(F().market, map[], X, x)
    ensures x == 1.0
  {
    hide F, Market.Ranked, Neighborhood;
    Ranking(X, Z);
    var r := F().market.Ranked(X, Z)[0];
    assert r in F().market.Ranked(X, Z);
    RankedTokensAreNeighbors(F().market, X, Z);
    assert Seen(F().market, X, 1.0);
    SeenFromX(x);
  }

  lemma SeenFromX(x: real)
    ensures Seen(F().market, X, x) ==> x == 1.0
  {
    hide F, Market.Ranked, Neighborhood;
    if Seen(F().market, X, x) {
      var v: Pubkey, r :| v in Neighborhood(F().market.adj, X).Keys && r in F().market.Ranked(X, v) && x == ClampEdgeRatio(r.edgeRatio);
      Ranking(X, v);
    }
  }

  lemma RankableX()
    ensures Rankable(F().market, X)
  {
    hide F, Market.Ranked, Neighborhood;
    Ranking(X, Z);
    var r := F().market.Ranked(X, Z)[0];
    assert r in F().market.Ranked(X, Z);
    RankedTokensAreNeighbors(F().market, X, Z);
    assert Seen(F().market, X, ClampEdgeRatio(r.edgeRatio));
  }

  /** The second time X is popped its ratio is known to be 1, and the bound cuts the path. */
  lemma XIsCut(results: seq<ArbCycle>, log: Log, account: Account, i: nat)
    requires IsRun(results, log, account) && i < |account.popped| && account.popped[i] == [B, Y, X]
    ensures !Passed(F(), account, [B, Y, X])
  {
    Paths();
    Settings();
    hide F, Frame.SearchPath, Settled, LogOk, Dominated, Frame.NodeOf, Rankable, IsBestRatio, PopTraced, LogTraced, BestFirst;
    var y := ParentPopped(results, log, account, i);
    assert Parent([B, Y, X]) == [B, Y];
    var x := XBeforeY(results, log, account, y);
    XPasses(results, log, account, y, x);
    if [B, Y, X] in account.consulted {
      assert ConsultedAt(F(), map[], account, i);
      assert ExpandedAt(F(), account, x, X);
      RankableX();
      BestFromX(account.consulted[[B, Y, X]]);
      assert Pow(1.0, 2) == 1.0 by {
        assert Pow(1.0, 1) == 1.0;
      }
    }
  }

  /** So the cycle behind it is never popped. */
  lemma GoodNeverPopped(results: seq<ArbCycle>, log: Log, account: Account)
    requires IsRun(results, log, account)
    ensures GOOD !in account.popped
  {
    hide F, IsRun, Passed;
    forall i | 0 <= i < |account.popped|
      ensures account.popped[i] != GOOD
    {
      if account.popped[i] == GOOD {
        var j := ParentPopped(results, log, account, i);
        assert Parent(GOOD) == [B, Y, X, Z];
        var k := ParentPopped(results, log, account, j);
        assert Parent([B, Y, X, Z]) == [B, Y, X];
        XIsCut(results, log, account, k);
      }
    }
  }

  /**
   Main result: every run returns nothing, although `GOOD` is a candidate that qualifies. The beam holds
   ten nodes per depth and there are two, so it is the bound that costs the cycle.
   */
  lemma EveryRunMissesGoodCycle(results: seq<ArbCycle>, log: Log, account: Account)
    requires Guarantees(F(), map[], results, log, account)
    ensures results == [] && Candidate(F(), GOOD) && F().SearchPath(GOOD) && F().Qualifies(GOOD)
  {
    GoodCycle();
    Paths();
    Settings();
    GuaranteesRun(results, log, account);
    GoodNeverPopped(results, log, account);
    hide F, Guarantees, IsRun, Frame.SearchPath, Frame.NodeOf, Candidate, CycleOf;
    if results != [] {
      assert Reported(F(), account, results[0]);
      Cycles(results[0].path);
    }
  }

  /** The same on the objects: load the pools, search, and nothing comes back. */
  method SearchReturnsNothing() returns (results: seq<ArbCycle>)
    ensures results == []
  {
    hide Guarantees, CacheExact;
    var graph := new PoolGraph();
    graph.BulkUpsert(Edges());
    RunOne(BulkUpsert(Edges()));
    var ranker := new PoolRanker(F().market.config, F().market.provider);
    var finder := new BeamCycleFinder(F().config, ranker);
    ghost var log, account;
    results, log, account := finder.FindCycles(graph);
    assert FrameOf(graph.adj, ranker, finder.config, None) == F();
    EveryRunMissesGoodCycle(results, log, account);
  }
}
