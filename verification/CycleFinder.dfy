/**
 The best-first beam search for arbitrage cycles (src/arbitrage/cycle_finder.rs). The priority queue
 is a bag from which any best-scoring node may be taken, and the order of equally ranked neighbors is
 free, so what is proved holds for every tie-break of the heap and every hash order.
 */
module CycleFinder {
  import opened Types
  import opened Wrappers
  import opened Sorting
  import opened Collections
  import opened PoolGraphs
  import opened PoolGraphObject
  import opened SearchNodes
  import opened PoolRanking
  import opened RankingLaws
  import opened SearchSubgraph
  import opened SearchPaths
  import opened BeamTrace
  import opened SearchMeasure
  import opened SearchAccounting
  import opened SearchTrace
  import opened SearchBound

  function KnownTokens(adj: Adjacency, tokens: seq<Pubkey>): (r: seq<Pubkey>)
    ensures forall t :: t in r <==> t in tokens && t in adj
  {
    if tokens == [] then []
    else if tokens[0] in adj then [tokens[0]] + KnownTokens(adj, tokens[1..])
    else KnownTokens(adj, tokens[1..])
  }

  predicate HigherReturn(a: ArbCycle, b: ArbCycle) {
    a.estimatedReturnBps >= b.estimatedReturnBps
  }

  /** The fixed frame of a search over `adj`, targeted if seeds are given. */
  ghost function FrameOf(adj: Adjacency, ranker: PoolRanker, config: CycleFinderConfig, seeds: Option<seq<Pubkey>>): Frame {
    var target :=
      if seeds.None? then None
      else Some(Target(seeds.value,
                       AreaOf(adj, config.baseMint, seeds.value).Reach(config.maxHops) + {config.baseMint}));
    Frame(Market(adj, ranker.provider, ranker.config), config, target)
  }

  // ----- The invariant of the search loop -----

  ghost predicate HeapOk(f: Frame, heap: seq<SearchNode>) {
    forall i :: 0 <= i < |heap| ==> f.NodeOk(heap[i])
  }

  /** A cycle made of a popped, qualifying path. */
  ghost predicate Reported(f: Frame, account: Account, c: ArbCycle) {
    f.SearchPath(c.path) && f.Qualifies(c.path) && c == CycleOf(f, c.path) && c.path in account.popped
  }

  ghost predicate DistinctCycles(results: seq<ArbCycle>) {
    forall i, j :: 0 <= i < j < |results| ==> results[i].path != results[j].path
  }

  ghost predicate ResultsOk(f: Frame, account: Account, results: seq<ArbCycle>) {
    DistinctCycles(results) && forall i :: 0 <= i < |results| ==> Reported(f, account, results[i])
  }

  ghost predicate SearchOk(f: Frame, start: RatioCache, heap: seq<SearchNode>, log: Log, account: Account, beam: Beam,
                           results: seq<ArbCycle>)
  {
    && HeapOk(f, heap) && LogOk(f, log) && ResultsOk(f, account, results)
    && Accounted(f, heap, log, account, results)
    && Traced(f, log, account) && HeapTraced(f, heap, log, account) && ConsultedExactly(f, start, account)
    && BeamOk(beam, log, f.config.beamWidth) && Dominated(log, f.config.beamWidth)
  }

  lemma StartSearch(f: Frame, start: RatioCache)
    ensures SearchOk(f, start, [Start(f.Base())], [], Account([], map[]), Beam(map[], map[]), [])
  {
    hide Frame.NodeOk, Accounted, Frame.SearchPath, Bounded, ConsultedExactly;
    StartAccounted(f);
    StartBeamOk(f.config.beamWidth);
    StartExact(f, start);
  }

  lemma WithoutOk(f: Frame, heap: seq<SearchNode>, i: nat, added: seq<SearchNode>)
    requires HeapOk(f, heap) && HeapOk(f, added) && i < |heap|
    ensures HeapOk(f, Without(heap, i) + added)
  {
    hide Frame.NodeOk;
  }

  lemma ExpansionOk(f: Frame, node: SearchNode, added: seq<SearchNode>, entries: Log)
    requires Expansion(f, node, added, entries)
    ensures HeapOk(f, added) && LogOk(f, entries) && |added| <= |entries|
    ensures forall k :: 0 <= k < |added| ==> added[k].depth == node.depth + 1
    ensures forall k :: 0 <= k < |entries| && entries[k].pushed ==> f.NodeOk(entries[k].node) && entries[k].node in added
  {
    hide Frame.NodeOk, Frame.CanStep;
    PushedNodesAre(entries);
    PushedNodesFew(entries);
    forall k | 0 <= k < |added|
      ensures f.NodeOk(added[k]) && added[k].depth == node.depth + 1
    {
      assert added[k] in added;
    }
  }

  lemma NoExpansion(f: Frame, node: SearchNode)
    ensures Expansion(f, node, [], [])
  {
  }

  lemma LogGrows(f: Frame, log: Log, entries: Log)
    requires LogOk(f, log) && LogOk(f, entries)
    ensures LogOk(f, log + entries)
  {
    hide Frame.NodeOk;
  }

  /** One round: a best node is popped, dealt with, and possibly expanded. */
  lemma SearchRound(f: Frame, start: RatioCache, heap: seq<SearchNode>, at: nat, log: Log, account: Account, beam: Beam,
              results: seq<ArbCycle>, ratio: real, added: seq<SearchNode>, entries: Log, beam': Beam, results': seq<ArbCycle>)
    requires SearchOk(f, start, heap, log, account, beam, results) && at < |heap|
    requires forall n :: n in heap ==> n.score <= heap[at].score
    requires Expansion(f, heap[at], added, entries)
    requires var account' := AfterPop(f, account, heap[at].path, ratio);
             && (entries != [] ==> Passed(f, account', heap[at].path))
             && Settled(f, log + entries, account', results', heap[at].path)
             && results <= results' && ResultsOk(f, account', results')
    requires Bounded(f, heap[at].path) ==>
               heap[at].path != [] && IsConsulted(f, start, account, |account.popped|, heap[at].path[|heap[at].path| - 1], ratio)
    requires BeamOk(beam', log + entries, f.config.beamWidth) && Dominated(log + entries, f.config.beamWidth)
    ensures SearchOk(f, start, Without(heap, at) + added, log + entries, AfterPop(f, account, heap[at].path, ratio), beam', results')
  {
    hide Frame.NodeOk, Frame.SearchPath, Frame.CanStep, Accounted, Settled, Traced, HeapTraced, ConsultedExactly, ResultsOk,
         Expansion, IsConsulted, Passed, Bounded, AfterPop, BeamOk, Dominated;
    HeadFacts(f, heap, at, log, account, results);
    ExpansionOk(f, heap[at], added, entries);
    WithoutOk(f, heap, at, added);
    LogGrows(f, log, entries);
    PopAppends(f, account, heap[at].path, ratio);
    RoundKeepsBooks(f, heap, at, log, account, results, added, entries, AfterPop(f, account, heap[at].path, ratio), results');
    StepTraced(f, heap, at, log, account, results, ratio, added, entries);
    StepConsulted(f, start, account, heap[at].path, ratio);
  }

  lemma PopAppends(f: Frame, account: Account, p: Path, ratio: real)
    ensures AfterPop(f, account, p, ratio).popped == account.popped + [p]
    ensures p !in account.consulted ==> Consults(account, AfterPop(f, account, p, ratio))
  {
    hide Bounded;
  }

  /** The node to be popped was never popped before. */
  lemma HeadFacts(f: Frame, heap: seq<SearchNode>, at: nat, log: Log, account: Account, results: seq<ArbCycle>)
    requires HeapOk(f, heap) && HeapTraced(f, heap, log, account) && Traced(f, log, account) && at < |heap|
    ensures f.NodeOk(heap[at]) && heap[at].path != []
    ensures heap[at].path !in account.popped && heap[at].path !in account.consulted
  {
    hide Frame.NodeOf, BestFirst, LogTraced;
    assert f.NodeOk(heap[at]);
    assert InHeap(f, log, account, heap[at].path);
  }

  lemma StepTraced(f: Frame, heap: seq<SearchNode>, at: nat, log: Log, account: Account, results: seq<ArbCycle>,
                   ratio: real, added: seq<SearchNode>, entries: Log)
    requires Traced(f, log, account) && HeapTraced(f, heap, log, account) && Accounted(f, heap, log, account, results)
    requires LogOk(f, log) && at < |heap| && f.NodeOk(heap[at]) && heap[at].path !in account.popped
    requires forall n :: n in heap ==> n.score <= heap[at].score
    requires Expansion(f, heap[at], added, entries)
    requires entries != [] ==> Passed(f, AfterPop(f, account, heap[at].path, ratio), heap[at].path)
    ensures Traced(f, log + entries, AfterPop(f, account, heap[at].path, ratio))
    ensures HeapTraced(f, Without(heap, at) + added, log + entries, AfterPop(f, account, heap[at].path, ratio))
  {
    hide HeapTraced, PopTraced, LogTraced, BestFirst, Expansion, Passed, AfterPop, Accounted, LogOk, Frame.NodeOk;
    StepPopTraced(f, heap, at, log, entries, account, ratio);
    StepLogTraced(f, heap, at, log, account, ratio, added, entries);
    StepHeapTraced(f, heap, at, log, account, ratio, added, entries);
    StepBestFirst(f, heap, at, log, account, results, ratio, added, entries);
  }

  lemma NodeIsOk(f: Frame, start: RatioCache, heap: seq<SearchNode>, log: Log, account: Account, beam: Beam,
                 results: seq<ArbCycle>, i: nat)
    requires SearchOk(f, start, heap, log, account, beam, results) && i < |heap|
    ensures f.NodeOk(heap[i]) && heap[i].path !in account.popped && heap[i].path !in account.consulted
  {
    hide Frame.NodeOk, Accounted, Traced, HeapTraced, LogOk, ResultsOk, ConsultedExactly, BeamOk, Dominated;
    HeadFacts(f, heap, i, log, account, results);
  }

  lemma BeamIsOk(f: Frame, start: RatioCache, heap: seq<SearchNode>, log: Log, account: Account, beam: Beam, results: seq<ArbCycle>)
    requires SearchOk(f, start, heap, log, account, beam, results)
    ensures BeamOk(beam, log, f.config.beamWidth) && Dominated(log, f.config.beamWidth)
  {
    hide Accounted, Traced, HeapTraced, LogOk, ResultsOk, ConsultedExactly, BeamOk, Dominated, HeapOk;
  }

  /** Earlier results stay reported when another path is popped. */
  lemma ResultsStay(f: Frame, account: Account, results: seq<ArbCycle>, p: Path, ratio: real)
    requires ResultsOk(f, account, results)
    ensures ResultsOk(f, AfterPop(f, account, p, ratio), results)
  {
    hide Frame.SearchPath, CycleOf, Frame.NodeOf, Bounded;
    var account' := AfterPop(f, account, p, ratio);
    forall i | 0 <= i < |results|
      ensures Reported(f, account', results[i])
    {
      assert Reported(f, account, results[i]);
    }
  }

  lemma ResultAdded(f: Frame, account: Account, results: seq<ArbCycle>, p: Path, ratio: real)
    requires ResultsOk(f, account, results) && f.SearchPath(p) && f.Qualifies(p) && p !in account.popped
    ensures ResultsOk(f, AfterPop(f, account, p, ratio), results + [CycleOf(f, p)])
  {
    hide Frame.SearchPath, CycleOf, Frame.NodeOf, AfterPop;
    var account', all := AfterPop(f, account, p, ratio), results + [CycleOf(f, p)];
    ResultsStay(f, account, results, p, ratio);
    NewReport(f, account, p, ratio);
    forall i | 0 <= i < |results|
      ensures results[i].path != p
    {
      assert Reported(f, account, results[i]);
    }
    hide Reported;
    forall i | 0 <= i < |all|
      ensures Reported(f, account', all[i])
    {
      if i < |results| {
        assert Reported(f, account', results[i]);
      }
    }
  }

  lemma NewReport(f: Frame, account: Account, p: Path, ratio: real)
    requires f.SearchPath(p) && f.Qualifies(p)
    ensures Reported(f, AfterPop(f, account, p, ratio), CycleOf(f, p)) && CycleOf(f, p).path == p
  {
    hide Frame.SearchPath, CycleOf, Frame.NodeOf, Bounded;
    CyclePath(f, p);
    assert AfterPop(f, account, p, ratio).popped[|account.popped|] == p;
  }

  lemma CyclePath(f: Frame, p: Path)
    requires f.SearchPath(p) && f.Closed(p)
    ensures CycleOf(f, p).path == p
  {
    NodeShape(f, p);
    PathShape(f, p);
  }

  lemma ClosedRound(f: Frame, start: RatioCache, heap: seq<SearchNode>, i: nat, log: Log, account: Account, beam: Beam,
                    results: seq<ArbCycle>, cycle: Option<ArbCycle>)
    requires SearchOk(f, start, heap, log, account, beam, results) && i < |heap| && f.NodeOk(heap[i])
    requires forall n :: n in heap ==> n.score <= heap[i].score
    requires heap[i].path !in account.popped && f.Closed(heap[i].path)
    requires cycle == if f.Qualifies(heap[i].path) then Some(CycleOf(f, heap[i].path)) else None
    ensures SearchOk(f, start, Without(heap, i), log, AfterPop(f, account, heap[i].path, 0.0), beam,
                     if cycle.Some? then results + [cycle.value] else results)
  {
    hide Frame.SearchPath, Frame.NodeOf, CycleOf, Accounted, BeamOk, Dominated, LogOk, HeapOk, Without, ResultsOk, Traced,
         HeapTraced, ConsultedExactly, AfterPop, Expansion, Passed, IsConsulted;
    var results' := if cycle.Some? then results + [cycle.value] else results;
    if cycle.Some? {
      ResultAdded(f, account, results, heap[i].path, 0.0);
    } else {
      ResultsStay(f, account, results, heap[i].path, 0.0);
    }
    NoExpansion(f, heap[i]);
    assert log + [] == log && Without(heap, i) + [] == Without(heap, i);
    SearchRound(f, start, heap, i, log, account, beam, results, 0.0, [], [], beam, results');
  }

  /** A path at full depth is dropped. */
  lemma DeepRound(f: Frame, start: RatioCache, heap: seq<SearchNode>, i: nat, log: Log, account: Account, beam: Beam,
                  results: seq<ArbCycle>)
    requires SearchOk(f, start, heap, log, account, beam, results) && i < |heap| && f.NodeOk(heap[i])
    requires forall n :: n in heap ==> n.score <= heap[i].score
    requires !f.Closed(heap[i].path) && |heap[i].path| - 1 >= f.config.maxHops
    ensures SearchOk(f, start, Without(heap, i), log, AfterPop(f, account, heap[i].path, 0.0), beam, results)
  {
    hide Frame.SearchPath, Frame.NodeOf, CycleOf, Accounted, BeamOk, Dominated, LogOk, HeapOk, Without, ResultsOk, Traced,
         HeapTraced, ConsultedExactly, AfterPop, Expansion, Passed, IsConsulted;
    ResultsStay(f, account, results, heap[i].path, 0.0);
    NoExpansion(f, heap[i]);
    assert log + [] == log && Without(heap, i) + [] == Without(heap, i);
    SearchRound(f, start, heap, i, log, account, beam, results, 0.0, [], [], beam, results);
  }

  /** A path whose bound misses the threshold is cut. */
  lemma CutRound(f: Frame, start: RatioCache, heap: seq<SearchNode>, i: nat, log: Log, account: Account, beam: Beam,
                 results: seq<ArbCycle>, ratio: real)
    requires SearchOk(f, start, heap, log, account, beam, results) && i < |heap| && f.NodeOk(heap[i])
    requires forall n :: n in heap ==> n.score <= heap[i].score
    requires heap[i].path != [] && Bounded(f, heap[i].path)
    requires Cut(f, AfterPop(f, account, heap[i].path, ratio), heap[i].path)
    requires IsConsulted(f, start, account, |account.popped|, heap[i].path[|heap[i].path| - 1], ratio)
    ensures SearchOk(f, start, Without(heap, i), log, AfterPop(f, account, heap[i].path, ratio), beam, results)
  {
    hide Frame.SearchPath, Frame.NodeOf, CycleOf, Accounted, BeamOk, Dominated, LogOk, HeapOk, Without, ResultsOk, Traced,
         HeapTraced, ConsultedExactly, AfterPop, Expansion, Passed, IsConsulted, Cut;
    ResultsStay(f, account, results, heap[i].path, ratio);
    NoExpansion(f, heap[i]);
    assert log + [] == log && Without(heap, i) + [] == Without(heap, i);
    SearchRound(f, start, heap, i, log, account, beam, results, ratio, [], [], beam, results);
  }

  /** Whether the bound cuts a path is decided by the ratio consulted. */
  lemma CutDecision(f: Frame, account: Account, node: SearchNode, ratio: real)
    requires f.NodeOk(node) && Bounded(f, node.path) && |node.path| - 1 == node.depth
    ensures var account' := AfterPop(f, account, node.path, ratio);
            && (Cut(f, account', node.path) <==> UpperBound(node.profit, ratio, f.config.maxHops - node.depth) < f.MinMultiplier())
            && (Passed(f, account', node.path) <==> !Cut(f, account', node.path))
  {
    hide Frame.SearchPath, Frame.NodeOf, UpperBound;
  }

  /** A path beyond the bound's reach is not expanded. */
  lemma NotBounded(f: Frame, account: Account, p: Path, ratio: real)
    requires !Bounded(f, p) && p !in account.consulted
    ensures !Passed(f, AfterPop(f, account, p, ratio), p)
  {
    hide Cut;
  }

  lemma ClosedNotEmpty(f: Frame, p: Path)
    requires f.Closed(p)
    ensures p != [] && !Bounded(f, p)
  {
  }

  lemma FewNeighbors(f: Frame, s: GraphState, node: SearchNode, neighbors: Ranking)
    requires Valid(s) && f.market.adj == s.adj && Ranks(neighbors, f.market, node.token)
    ensures |neighbors| < |s.adj| + 1
  {
    DegreeBound(s, node.token);
  }

  lemma ExpandedRound(f: Frame, start: RatioCache, heap: seq<SearchNode>, i: nat, log: Log, account: Account, beam: Beam,
                      results: seq<ArbCycle>, ratio: real, added: seq<SearchNode>, entries: Log, beam': Beam)
    requires SearchOk(f, start, heap, log, account, beam, results) && i < |heap| && f.NodeOk(heap[i])
    requires forall n :: n in heap ==> n.score <= heap[i].score
    requires heap[i].path != [] && Bounded(f, heap[i].path)
    requires Passed(f, AfterPop(f, account, heap[i].path, ratio), heap[i].path)
    requires IsConsulted(f, start, account, |account.popped|, heap[i].path[|heap[i].path| - 1], ratio)
    requires Expansion(f, heap[i], added, entries)
    requires forall v :: f.CanStep(heap[i].path, v) ==> Logged(entries, heap[i].path + [v])
    requires BeamOk(beam', log + entries, f.config.beamWidth) && Dominated(log + entries, f.config.beamWidth)
    ensures SearchOk(f, start, Without(heap, i) + added, log + entries, AfterPop(f, account, heap[i].path, ratio), beam', results)
  {
    hide Frame.SearchPath, Frame.NodeOf, CycleOf, Accounted, BeamOk, Dominated, LogOk, HeapOk, Without, ResultsOk, Traced,
         HeapTraced, ConsultedExactly, AfterPop, Expansion, Passed, IsConsulted, Cut, Frame.CanStep;
    ResultsStay(f, account, results, heap[i].path, ratio);
    forall v | f.CanStep(heap[i].path, v)
      ensures Logged(log + entries, heap[i].path + [v])
    {
      var k :| 0 <= k < |entries| && entries[k].node.path == heap[i].path + [v];
      assert (log + entries)[|log| + k] == entries[k];
    }
    SearchRound(f, start, heap, i, log, account, beam, results, ratio, added, entries, beam', results);
  }

  /** The checks before an expansion, in terms of the path. */
  lemma StepDecision(f: Frame, node: SearchNode, v: Pubkey)
    requires f.NodeOk(node) && !f.Closed(node.path) && node.depth < f.config.maxHops
    requires f.market.Ranked(node.token, v) != []
    ensures node.path != [] && node.token == node.path[|node.path| - 1]
    ensures var back := v == f.Base() && node.depth > 0;
            f.CanStep(node.path, v) <==>
            (back || v !in node.visited) && (f.target.None? || back || v in f.target.value.allowed)
            && Frame.TopEdges(f.market.Ranked(node.token, v), f.config.poolAlternatives) != []
  {
    hide Market.Ranked, Frame.NodeOf;
    NodeShape(f, node.path);
    assert f.Base() in node.path by { assert node.path[0] == f.Base(); }
  }

  lemma ClosedMeansBack(f: Frame, node: SearchNode)
    requires f.NodeOk(node)
    ensures f.Closed(node.path) <==> node.depth > 0 && node.token == f.Base()
    ensures |node.path| - 1 == node.depth && node.token == node.path[|node.path| - 1]
  {
    hide Frame.NodeOf;
    NodeShape(f, node.path);
  }

  lemma ExpandIsNode(f: Frame, node: SearchNode, v: Pubkey)
    requires f.NodeOk(node) && node.path != [] && f.CanStep(node.path, v)
    requires f.market.Ranked(node.path[|node.path| - 1], v) != []
    ensures var e := Expand(node, f.HopOf(node.path[|node.path| - 1], v));
            f.NodeOk(e) && e.path == node.path + [v] && e.depth == node.depth + 1
  {
    hide Market.Ranked, Frame.SearchPath, Frame.CanStep, Frame.HopOf, Frame.NodeOf;
    NodeStep(f, node.path, v);
    NodeShape(f, node.path + [v]);
    ExpandDepth(node, f.HopOf(node.path[|node.path| - 1], v));
  }

  lemma ExpandDepth(node: SearchNode, hop: Hop)
    ensures Expand(node, hop).depth == node.depth + 1
  {
  }

  // ----- The end of a search -----

  function ResultLimit(config: CycleFinderConfig): nat {
    if config.maxResults == 0 then 1 else config.maxResults
  }

  /** A targeted search stays in the breadth-first neighborhood of its seeds. */
  ghost predicate TargetOk(f: Frame) {
    f.target.Some? ==>
      f.target.value.allowed
      == AreaOf(f.market.adj, f.Base(), f.target.value.seeds).Reach(f.config.maxHops) + {f.Base()}
  }

  /**
   What every finished search guarantees. `log` records every generated node and `account` every popped
   path, and both are true records of the run.
   */
  ghost predicate Guarantees(f: Frame, start: RatioCache, results: seq<ArbCycle>, log: Log, account: Account) {
    // every reported cycle is well formed, best return first, not too many, each of another popped path
    && (forall c :: c in results ==> WellFormed(f, c))
    && Sorted(results, HigherReturn) && |results| <= (if f.config.maxResults == 0 then 1 else f.config.maxResults) && ResultsOk(f, account, results)
    // the log is of real search nodes, each generated once by expanding its parent; paths are popped once, best first
    && LogOk(f, log) && Traced(f, log, account)
    // a node was pushed exactly as the beam's rule says, so every discard was dominated by a full beam
    && Followed(log, f.config.beamWidth) && Dominated(log, f.config.beamWidth)
    // the bound consulted exactly the ratio known at its moment
    && ConsultedExactly(f, start, account)
    // every popped path was reported, cut by the bound, at full depth, or expanded in every allowed direction
    && (forall p :: p in account.popped ==> Settled(f, log, account, results, p))
    // below the limit all that was pushed was popped, so no profitable candidate is missing unless the beam
    // discarded or the bound cut one of its prefixes
    && (|results| < (if f.config.maxResults == 0 then 1 else f.config.maxResults) ==>
          && Accounted(f, [], log, account, results)
          && forall p :: Candidate(f, p) ==> Answered(f, log, account, results, p))
  }

  lemma HigherReturnIsTotal()
    ensures TotalPreorder(HigherReturn)
  {
  }

  lemma ReportedAreWellFormed(f: Frame, s: GraphState, account: Account, results: seq<ArbCycle>)
    requires Valid(s) && s.adj == f.market.adj && ResultsOk(f, account, results)
    ensures forall c :: c in results ==> WellFormed(f, c)
  {
    hide Frame.SearchPath, WellFormed, CycleOf, Frame.NodeOf, Valid;
    forall c | c in results
      ensures WellFormed(f, c)
    {
      var i :| 0 <= i < |results| && results[i] == c;
      assert Reported(f, account, results[i]);
      CycleIsWellFormed(f, s, c.path);
    }
  }

  lemma CandidateAnswered(f: Frame, s: GraphState, log: Log, account: Account, results: seq<ArbCycle>, p: Path)
    requires Valid(s) && s.adj == f.market.adj && TargetOk(f)
    requires Accounted(f, [], log, account, results) && Candidate(f, p)
    ensures Answered(f, log, account, results, p)
  {
    hide Frame.SearchPath, Answered, Accounted, Candidate, Valid;
    CandidatesAreSearchPaths(f, s, p);
    NothingLostSilently(f, log, account, results, p);
  }

  lemma SettledInAnyOrder(f: Frame, log: Log, account: Account, results: seq<ArbCycle>, other: seq<ArbCycle>, p: Path)
    requires Settled(f, log, account, results, p) && forall c :: c in results ==> c in other
    ensures Settled(f, log, account, other, p)
  {
    hide Frame.SearchPath, CycleOf, Frame.NodeOf, Cut, Frame.CanStep;
  }

  lemma AccountedInAnyOrder(f: Frame, heap: seq<SearchNode>, log: Log, account: Account, results: seq<ArbCycle>, other: seq<ArbCycle>)
    requires Accounted(f, heap, log, account, results) && forall c :: c in results ==> c in other
    ensures Accounted(f, heap, log, account, other)
  {
    hide Frame.SearchPath, Frame.NodeOf, Settled;
    forall p | p in account.popped
      ensures Settled(f, log, account, other, p)
    {
      SettledInAnyOrder(f, log, account, results, other, p);
    }
  }

  lemma ResultsInAnyOrder(f: Frame, account: Account, results: seq<ArbCycle>, other: seq<ArbCycle>)
    requires ResultsOk(f, account, results) && multiset(results) == multiset(other)
    ensures ResultsOk(f, account, other)
  {
    hide Reported;
    DistinctKeysPermuted(results, other, (c: ArbCycle) => c.path);
    forall i | 0 <= i < |other|
      ensures Reported(f, account, other[i])
    {
      assert other[i] in multiset(other);
      assert other[i] in multiset(results);
      assert other[i] in results;
    }
  }

  lemma FinishSearch(f: Frame, s: GraphState, start: RatioCache, heap: seq<SearchNode>, log: Log, account: Account, beam: Beam,
                     results: seq<ArbCycle>)
    requires Valid(s) && s.adj == f.market.adj && TargetOk(f)
    requires SearchOk(f, start, heap, log, account, beam, results)
    requires |results| <= ResultLimit(f.config) && (heap == [] || |results| == ResultLimit(f.config))
    ensures Guarantees(f, start, Sort(results, HigherReturn), log, account)
  {
    hide WellFormed, ConsultedExactly, Dominated, Answered, Candidate, BeamOk, Valid, ResultsOk, LogOk,
         HigherReturn, HeapOk, TargetOk, Traced, HeapTraced, Settled, Waiting, Followed;
    var sorted := Sort(results, HigherReturn);
    SortMembers(results, HigherReturn);
    HigherReturnIsTotal();
    SortSorted(results, HigherReturn);
    ResultsInAnyOrder(f, account, results, sorted);
    ReportedAreWellFormed(f, s, account, sorted);
    BeamFollows(beam, log, f.config.beamWidth);
    AccountedInAnyOrder(f, heap, log, account, results, sorted);
    if |results| < ResultLimit(f.config) {
      forall p | Candidate(f, p)
        ensures Answered(f, log, account, sorted, p)
      {
        CandidateAnswered(f, s, log, account, sorted, p);
      }
    }
  }

  // ----- The finder -----

  class BeamCycleFinder {
    const config: CycleFinderConfig
    const ranker: PoolRanker

    constructor (config: CycleFinderConfig, ranker: PoolRanker)
      ensures this.config == config && this.ranker == ranker
    {
      this.config, this.ranker := config, ranker;
    }

    /** Takes any node of greatest score off the heap. */
    static method PopBest(heap: seq<SearchNode>) returns (node: SearchNode, rest: seq<SearchNode>, ghost at: nat)
      requires heap != []
      ensures at < |heap| && node == heap[at] && rest == Without(heap, at)
      ensures forall n :: n in heap ==> n.score <= node.score
    {
      SomeBest(heap);
      var i: nat :| i < |heap| && IsBest(heap, i);
      node, rest, at := heap[i], heap[..i] + heap[i + 1..], i;
    }

    /** No node of the heap scores higher than the one at `i`. */
    static predicate IsBest(heap: seq<SearchNode>, i: nat) {
      i < |heap| && forall j :: 0 <= j < |heap| ==> heap[j].score <= heap[i].score
    }

    static lemma {:induction false} SomeBest(heap: seq<SearchNode>)
      requires heap != []
      ensures exists i: nat :: IsBest(heap, i)
    {
      if |heap| == 1 {
        assert IsBest(heap, 0);
      } else {
        var init, n := heap[..|heap| - 1], |heap| - 1;
        SomeBest(init);
        var i: nat :| IsBest(init, i);
        assert forall j :: 0 <= j < |init| ==> heap[j] == init[j];
        assert IsBest(heap, if heap[n].score > heap[i].score then n else i);
      }
    }

    /** Does every hop's first pool have a probe quote? */
    method CycleAllHopsQuoted(cycle: ArbCycle) returns (ok: bool)
      requires |cycle.path| == |cycle.pools| + 1
      ensures ok <==> forall i :: 0 <= i < |cycle.pools| ==>
                cycle.pools[i] != []
                && Market(map[], ranker.provider, ranker.config).Quoted(cycle.pools[i][0], cycle.path[i], cycle.path[i + 1])
    {
      for i := 0 to |cycle.pools|
        invariant forall k :: 0 <= k < i ==>
                    cycle.pools[k] != []
                    && Market(map[], ranker.provider, ranker.config).Quoted(cycle.pools[k][0], cycle.path[k], cycle.path[k + 1])
      {
        if cycle.pools[i] == []
           || !Market(map[], ranker.provider, ranker.config).Quoted(cycle.pools[i][0], cycle.path[i], cycle.path[i + 1]) {
          return false;
        }
      }
      return true;
    }

    /** A path back at base becomes a cycle exactly when it qualifies; the quote gate never rejects it. */
    method Complete(node: SearchNode, required: Option<set<Pubkey>>, ghost f: Frame, ghost s: GraphState)
      returns (cycle: Option<ArbCycle>)
      requires Valid(s) && f.market == Market(s.adj, ranker.provider, ranker.config) && f.config == config
      requires f.NodeOk(node) && f.Closed(node.path)
      requires f.target.None? <==> required.None?
      requires f.target.Some? ==> required.value == set t | t in f.target.value.seeds
      ensures cycle == if f.Qualifies(node.path) then Some(CycleOf(f, node.path)) else None
    {
      hide Frame.SearchPath, Frame.NodeOf, Market.Ranked;
      var minProfitMultiplier := 1.0 + config.minProfitBps as real / 10_000.0;
      cycle := None;
      NodeShape(f, node.path);
      if node.profit >= minProfitMultiplier {
        if required.Some? && !(exists i :: 0 <= i < |node.path| && node.path[i] in required.value) {
          return;
        }
        PathShape(f, node.path);
        PathStartsAtBase(f, node.path);
        var found := ToArbCycle(node);
        if found.Some? {
          var quoted := CycleAllHopsQuoted(found.value);
          forall i | 0 <= i < |node.path| - 1
            ensures found.value.pools[i] != [] && f.market.Quoted(found.value.pools[i][0], node.path[i], node.path[i + 1])
          {
            GateNeverRejects(f, s, node.path, i);
          }
          if !quoted {
            return;
          }
          cycle := found;
        }
      }
    }

    /** Generates the successors of a node and decides for each whether it enters the beam. */
    method ExpandNode(node: SearchNode, neighbors: Ranking, allowed: Option<set<Pubkey>>, beam: Beam,
                      ghost f: Frame, ghost log: Log)
      returns (added: seq<SearchNode>, beam': Beam, ghost entries: Log)
      requires f.config == config && f.NodeOk(node) && !f.Closed(node.path) && node.depth < config.maxHops
      requires Ranks(neighbors, f.market, node.token)
      requires allowed.None? <==> f.target.None?
      requires f.target.Some? ==> allowed.value == f.target.value.allowed
      requires BeamOk(beam, log, config.beamWidth) && Dominated(log, config.beamWidth)
      ensures Expansion(f, node, added, entries) && |entries| <= |neighbors|
      ensures forall v :: node.path != [] && f.CanStep(node.path, v) ==> Logged(entries, node.path + [v])
      ensures BeamOk(beam', log + entries, config.beamWidth) && Dominated(log + entries, config.beamWidth)
    {
      hide Frame.NodeOk, Frame.CanStep, Market.Ranked, BeamOk, Dominated, Sorted, Frame.Closed, Beam.Admit, Expand, Expansion,
           FromFirst;
      added, beam', entries := [], beam, [];
      assert log + [] == log;
      NoExpansion(f, node);
      FromNone(node, neighbors);
      for k := 0 to |neighbors|
        invariant Expansion(f, node, added, entries) && |entries| <= k && FromFirst(node, neighbors, k, entries)
        invariant BeamOk(beam', log + entries, config.beamWidth) && Dominated(log + entries, config.beamWidth)
        invariant forall j :: 0 <= j < k && node.path != [] && f.CanStep(node.path, neighbors[j].0) ==>
                    Logged(entries, node.path + [neighbors[j].0])
      {
        var (v, ranked) := neighbors[k];
        var isReturnToBase := v == config.baseMint && node.depth > 0;
        StepDecision(f, node, v);
        FromMore(node, neighbors, k, entries);
        if !isReturnToBase && v in node.visited {
          continue;
        }
        if allowed.Some? && !isReturnToBase && v !in allowed.value {
          continue;
        }
        var alternatives := Frame.TopEdges(ranked, config.poolAlternatives);
        if alternatives == [] {
          continue;
        }
        var best := ranked[0];
        var expanded := Expand(node, Hop(v, alternatives, best.edgeRatio, best.liquidityScore, best.edge.liquidityUsd));
        ExpandIsNode(f, node, v);
        var pushed;
        AdmitKeepsBeam(beam', log + entries, config.beamWidth, expanded);
        beam', pushed := Admit(beam', expanded);
        AppendEntry(f, node, neighbors, k, added, entries, expanded, pushed);
        assert log + (entries + [Generated(expanded, pushed)]) == log + entries + [Generated(expanded, pushed)];
        entries := entries + [Generated(expanded, pushed)];
        if pushed {
          added := added + [expanded];
        }
      }
      forall v | node.path != [] && f.CanStep(node.path, v)
        ensures Logged(entries, node.path + [v])
      {
        ListedIfStep(f, node, neighbors, v);
      }
    }

    /** All profitable cycles from base to base. */
    method FindCycles(graph: PoolGraph) returns (results: seq<ArbCycle>, ghost log: Log, ghost account: Account)
      requires graph.Valid()
      modifies ranker`maxEdgeRatio
      ensures var f := FrameOf(graph.adj, ranker, config, None);
              Guarantees(f, old(ranker.maxEdgeRatio), results, log, account)
              && CacheExact(f, old(ranker.maxEdgeRatio), account, ranker.maxEdgeRatio)
    {
      results, log, account := FindCyclesInner(graph, None);
    }

    /** Profitable cycles through at least one of the given tokens that the graph knows. */
    method FindCyclesThrough(graph: PoolGraph, throughTokens: seq<Pubkey>)
      returns (results: seq<ArbCycle>, ghost log: Log, ghost account: Account)
      requires graph.Valid()
      modifies ranker`maxEdgeRatio
      ensures var seeds := KnownTokens(graph.adj, throughTokens);
              var f := FrameOf(graph.adj, ranker, config, Some(seeds));
              if seeds == [] then results == [] && ranker.maxEdgeRatio == old(ranker.maxEdgeRatio) && forall p :: !Candidate(f, p)
              else Guarantees(f, old(ranker.maxEdgeRatio), results, log, account)
                   && CacheExact(f, old(ranker.maxEdgeRatio), account, ranker.maxEdgeRatio)
    {
      hide Guarantees, CacheExact, SimpleCycle;
      var seeds := KnownTokens(graph.adj, throughTokens);
      if seeds == [] {
        results, log, account := [], [], Account([], map[]);
        return;
      }
      results, log, account := FindCyclesInner(graph, Some(seeds));
    }

    method FindCyclesInner(graph: PoolGraph, seeds: Option<seq<Pubkey>>)
      returns (results: seq<ArbCycle>, ghost log: Log, ghost account: Account)
      requires graph.Valid()
      modifies ranker`maxEdgeRatio
      ensures var f := FrameOf(graph.adj, ranker, config, seeds);
              Guarantees(f, old(ranker.maxEdgeRatio), results, log, account)
              && CacheExact(f, old(ranker.maxEdgeRatio), account, ranker.maxEdgeRatio)
    {
      ghost var s := graph.State();
      ghost var f := FrameOf(graph.adj, ranker, config, seeds);
      var allowed: Option<set<Pubkey>>, required: Option<set<Pubkey>> := None, None;
      if seeds.Some? {
        var area := BuildSearchSubgraph(graph, config.baseMint, seeds.value, config.maxHops);
        allowed, required := Some(area), Some(set t | t in seeds.value);
      }
      results, log, account := Search(graph, allowed, required, f, s);
    }

    method Search(graph: PoolGraph, allowed: Option<set<Pubkey>>, required: Option<set<Pubkey>>,
                  ghost f: Frame, ghost s: GraphState)
      returns (results: seq<ArbCycle>, ghost log: Log, ghost account: Account)
      requires Setup(f, s, graph, allowed, required) && TargetOk(f)
      modifies ranker`maxEdgeRatio
      ensures Guarantees(f, old(ranker.maxEdgeRatio), results, log, account)
      ensures CacheExact(f, old(ranker.maxEdgeRatio), account, ranker.maxEdgeRatio)
    {
      hide SearchOk, Guarantees, CacheExact, Weight, Without, Start, Frame.NodeOk, TargetOk, Valid, Frame.Closed;
      results, log, account := [], [], Account([], map[]);
      var heap, beam := [Start(config.baseMint)], Beam(map[], map[]);
      ghost var w, start := |graph.adj| + 1, ranker.maxEdgeRatio;
      StartSearch(f, start);
      StartExact(f, start);
      while heap != []
        invariant SearchOk(f, start, heap, log, account, beam, results)
        invariant CacheExact(f, start, account, ranker.maxEdgeRatio)
        invariant |results| < ResultLimit(config)
        decreases Weight(w, config.maxHops, heap)
      {
        var node, rest, at := PopBest(heap);
        ghost var heap0 := heap;
        NodeIsOk(f, start, heap, log, account, beam, results, at);
        ClosedMeansBack(f, node);
        if node.depth > 0 && node.token == config.baseMint {
          var cycle;
          cycle, account := CloseNode(node, required, f, s, start, graph, allowed, heap0, at, log, account, beam, results);
          heap := rest;
          if cycle.Some? {
            results := results + [cycle.value];
            if |results| >= config.maxResults {
              break;
            }
          }
        } else {
          var added;
          added, beam, log, account :=
            OpenNode(node, graph, allowed, required, f, s, start, heap0, at, log, account, beam, results);
          heap := rest + added;
        }
      }
      FinishSearch(f, s, start, heap, log, account, beam, results);
      results := Sort(results, HigherReturn);
    }

    ghost predicate Setup(f: Frame, s: GraphState, graph: PoolGraph, allowed: Option<set<Pubkey>>, required: Option<set<Pubkey>>)
      reads graph
    {
      && Valid(s) && s.adj == graph.adj
      && f.market == Market(s.adj, ranker.provider, ranker.config) && f.config == config
      && (allowed.None? <==> f.target.None?) && (required.None? <==> f.target.None?)
      && (f.target.Some? ==>
            allowed.value == f.target.value.allowed && required.value == set t | t in f.target.value.seeds)
    }

    /** A popped node that is back at base. */
    method CloseNode(node: SearchNode, required: Option<set<Pubkey>>, ghost f: Frame, ghost s: GraphState,
                     ghost start: RatioCache, ghost graph: PoolGraph, ghost allowed: Option<set<Pubkey>>,
                     ghost heap: seq<SearchNode>, ghost at: nat, ghost log: Log, ghost account: Account, ghost beam: Beam,
                     ghost results: seq<ArbCycle>)
      returns (cycle: Option<ArbCycle>, ghost account': Account)
      requires Setup(f, s, graph, allowed, required) && SearchOk(f, start, heap, log, account, beam, results)
      requires at < |heap| && node == heap[at] && forall n :: n in heap ==> n.score <= node.score
      requires f.NodeOk(node) && f.Closed(node.path) && node.path !in account.popped && node.path !in account.consulted
      requires CacheExact(f, start, account, ranker.maxEdgeRatio)
      ensures SearchOk(f, start, Without(heap, at), log, account', beam,
                       if cycle.Some? then results + [cycle.value] else results)
      ensures CacheExact(f, start, account', ranker.maxEdgeRatio)
      ensures Weight(|s.adj| + 1, config.maxHops, Without(heap, at)) < Weight(|s.adj| + 1, config.maxHops, heap)
    {
      hide SearchOk, Frame.NodeOk, Valid, Without, Frame.Closed, CacheExact, AfterPop;
      cycle := Complete(node, required, f, s);
      ClosedRound(f, start, heap, at, log, account, beam, results, cycle);
      account' := AfterPop(f, account, node.path, 0.0);
      NotBounded(f, account, node.path, 0.0);
      ClosedNotEmpty(f, node.path);
      StepCacheQuiet(f, start, account, node.path, 0.0, ranker.maxEdgeRatio);
      WeightShrinks(|s.adj| + 1, config.maxHops, heap, at, []);
      assert Without(heap, at) + [] == Without(heap, at);
    }

    /** A popped node that is still on its way: dropped at full depth, cut by the bound, or expanded. */
    method OpenNode(node: SearchNode, graph: PoolGraph, allowed: Option<set<Pubkey>>, ghost required: Option<set<Pubkey>>,
                    ghost f: Frame, ghost s: GraphState, ghost start: RatioCache, ghost heap: seq<SearchNode>,
                    ghost at: nat, ghost log: Log, ghost account: Account, beam: Beam, ghost results: seq<ArbCycle>)
      returns (added: seq<SearchNode>, beam': Beam, ghost log': Log, ghost account': Account)
      requires Setup(f, s, graph, allowed, required) && SearchOk(f, start, heap, log, account, beam, results)
      requires at < |heap| && node == heap[at] && forall n :: n in heap ==> n.score <= node.score
      requires f.NodeOk(node) && !f.Closed(node.path) && node.path !in account.popped && node.path !in account.consulted
      requires |node.path| - 1 == node.depth && node.path != [] && node.token == node.path[|node.path| - 1]
      requires CacheExact(f, start, account, ranker.maxEdgeRatio)
      modifies ranker`maxEdgeRatio
      ensures CacheExact(f, start, account', ranker.maxEdgeRatio)
      ensures SearchOk(f, start, Without(heap, at) + added, log', account', beam', results)
      ensures Weight(|s.adj| + 1, config.maxHops, Without(heap, at) + added) < Weight(|s.adj| + 1, config.maxHops, heap)
    {
      hide SearchOk, Frame.NodeOk, Valid, Without, Frame.Closed, Weight, UpperBound, Expansion, Ranks, BeamOk, Dominated,
           Frame.CanStep, Logged, CacheExact, RatiosOf, AfterPop, Passed, Cut, IsConsulted;
      ghost var w := |s.adj| + 1;
      added, beam', log', account' := [], beam, log, AfterPop(f, account, node.path, 0.0);
      assert Without(heap, at) + [] == Without(heap, at);
      if node.depth >= config.maxHops {
        DeepRound(f, start, heap, at, log, account, beam, results);
        NotBounded(f, account, node.path, 0.0);
        StepCacheQuiet(f, start, account, node.path, 0.0, ranker.maxEdgeRatio);
        WeightShrinks(w, config.maxHops, heap, at, []);
        return;
      }
      var remaining := config.maxHops - node.depth;
      var ratio := ranker.MaxEdgeRatioFor(node.token);
      RankerAnswers(f, start, account, ranker.maxEdgeRatio, node.token);
      CutDecision(f, account, node, ratio);
      account' := AfterPop(f, account, node.path, ratio);
      if UpperBound(node.profit, ratio, remaining) < 1.0 + config.minProfitBps as real / 10_000.0 {
        CutRound(f, start, heap, at, log, account, beam, results, ratio);
        StepCacheQuiet(f, start, account, node.path, ratio, ranker.maxEdgeRatio);
        WeightShrinks(w, config.maxHops, heap, at, []);
        return;
      }
      ghost var before, ratios := ranker.maxEdgeRatio, [];
      var neighbors;
      neighbors, ratios := ranker.RankPoolsFrom(graph, node.token);
      StepCacheRanked(f, start, account, node.path, ratio, before, ratios);
      BeamIsOk(f, start, heap, log, account, beam, results);
      ghost var entries;
      added, beam', entries := ExpandNode(node, neighbors, allowed, beam, f, log);
      ExpandedRound(f, start, heap, at, log, account, beam, results, ratio, added, entries, beam');
      FewNeighbors(f, s, node, neighbors);
      ExpansionOk(f, node, added, entries);
      WeightShrinks(w, config.maxHops, heap, at, added);
      log' := log + entries;
    }

    /** The beam decision on the mutable per-depth counters. */
    method Admit(beam: Beam, node: SearchNode) returns (beam': Beam, pushed: bool)
      ensures (beam', pushed) == beam.Admit(node, config.beamWidth)
    {
      var depth := node.depth;
      var counts := beam.counts[depth := beam.Count(depth)];
      var minScores := beam.minScores[depth := beam.MinScore(depth)];
      pushed := false;
      if counts[depth] < config.beamWidth {
        pushed := true;
        counts := counts[depth := counts[depth] + 1];
        if minScores[depth].None? || node.score < minScores[depth].value {
          minScores := minScores[depth := Some(node.score)];
        }
      } else if minScores[depth].None? || node.score > minScores[depth].value {
        pushed := true;
      }
      beam' := Beam(counts, minScores);
      assert counts == beam.Admit(node, config.beamWidth).0.counts;
      assert minScores == beam.Admit(node, config.beamWidth).0.minScores;
    }
  }

  lemma ListedIfStep(f: Frame, node: SearchNode, neighbors: Ranking, v: Pubkey)
    requires f.NodeOk(node) && Ranks(neighbors, f.market, node.token)
    requires node.path != [] && f.CanStep(node.path, v)
    ensures exists k :: 0 <= k < |neighbors| && neighbors[k].0 == v
  {
    hide Market.Ranked, Frame.NodeOf;
    NodeShape(f, node.path);
    RankedTokensAreNeighbors(f.market, node.token, v);
    assert Lists(neighbors, v);
  }

  /** Every entry extends `node` by one of the first `n` neighbors. */
  ghost predicate FromFirst(node: SearchNode, neighbors: Ranking, n: nat, entries: Log) {
    forall i :: 0 <= i < |entries| ==> Extends(node, neighbors, n, entries[i].node.path)
  }

  ghost predicate Extends(node: SearchNode, neighbors: Ranking, n: nat, p: Path) {
    exists j :: 0 <= j < n && j < |neighbors| && p == node.path + [neighbors[j].0]
  }

  lemma FromNone(node: SearchNode, neighbors: Ranking)
    ensures FromFirst(node, neighbors, 0, [])
  {
  }

  lemma FromMore(node: SearchNode, neighbors: Ranking, n: nat, entries: Log)
    requires FromFirst(node, neighbors, n, entries)
    ensures FromFirst(node, neighbors, n + 1, entries)
  {
    forall i | 0 <= i < |entries|
      ensures Extends(node, neighbors, n + 1, entries[i].node.path)
    {
      assert Extends(node, neighbors, n, entries[i].node.path);
    }
  }

  /** Appending a decision to the log keeps all earlier entries; it is about a path not logged yet. */
  lemma AppendEntry(f: Frame, node: SearchNode, neighbors: Ranking, n: nat, added: seq<SearchNode>, entries: Log,
                    expanded: SearchNode, pushed: bool)
    requires Expansion(f, node, added, entries) && FromFirst(node, neighbors, n, entries) && n < |neighbors|
    requires forall i, j :: 0 <= i < j < |neighbors| ==> neighbors[i].0 != neighbors[j].0
    requires f.NodeOk(expanded) && expanded.depth == node.depth + 1
    requires node.path != [] && f.CanStep(node.path, neighbors[n].0) && expanded.path == node.path + [neighbors[n].0]
    requires Ranks(neighbors, f.market, node.token) && node.token == node.path[|node.path| - 1]
    ensures var r := entries + [Generated(expanded, pushed)];
            && Expansion(f, node, if pushed then added + [expanded] else added, r)
            && FromFirst(node, neighbors, n + 1, r)
            && (forall p :: Logged(entries, p) ==> Logged(r, p))
            && Logged(r, expanded.path)
  {
    hide Frame.NodeOk, Frame.CanStep, Ranks, SiblingsRanked;
    var g := Generated(expanded, pushed);
    NextSibling(f, node, neighbors, n, entries, g);
    assert ChildOf(f, node, expanded);
    hide ChildOf;
    NotYetLogged(node, neighbors, n, entries, expanded.path);
    ExpansionGrows(f, node, added, entries, g);
    FromAppend(node, neighbors, n, entries, g);
    LoggedAppend(entries, g);
  }

  lemma NotYetLogged(node: SearchNode, neighbors: Ranking, n: nat, entries: Log, p: Path)
    requires FromFirst(node, neighbors, n, entries) && n < |neighbors| && p == node.path + [neighbors[n].0]
    requires forall i, j :: 0 <= i < j < |neighbors| ==> neighbors[i].0 != neighbors[j].0
    ensures forall k :: 0 <= k < |entries| ==> entries[k].node.path != p
  {
    forall k | 0 <= k < |entries|
      ensures entries[k].node.path != p
    {
      assert Extends(node, neighbors, n, entries[k].node.path);
      var j :| 0 <= j < n && j < |neighbors| && entries[k].node.path == node.path + [neighbors[j].0];
      assert entries[k].node.path[|node.path|] == neighbors[j].0;
    }
  }

  lemma ExpansionGrows(f: Frame, node: SearchNode, added: seq<SearchNode>, entries: Log, g: Generated)
    requires Expansion(f, node, added, entries) && ChildOf(f, node, g.node) && SiblingsRanked(f, entries + [g])
    requires forall k :: 0 <= k < |entries| ==> entries[k].node.path != g.node.path
    ensures Expansion(f, node, if g.pushed then added + [g.node] else added, entries + [g])
  {
    hide ChildOf, SiblingsRanked;
    var r := entries + [g];
    assert r[..|r| - 1] == entries;
    assert forall k :: 0 <= k < |entries| ==> r[k] == entries[k] && LogPaths(entries)[k] == entries[k].node.path;
    assert DistinctPaths(LogPaths(r)) by {
      forall i, j | 0 <= i < j < |r|
        ensures LogPaths(r)[i] != LogPaths(r)[j]
      {
        assert j < |entries| ==> LogPaths(entries)[i] != LogPaths(entries)[j];
      }
    }
  }

  lemma FromAppend(node: SearchNode, neighbors: Ranking, n: nat, entries: Log, g: Generated)
    requires FromFirst(node, neighbors, n, entries) && n < |neighbors| && g.node.path == node.path + [neighbors[n].0]
    ensures FromFirst(node, neighbors, n + 1, entries + [g])
  {
    FromMore(node, neighbors, n, entries);
    assert Extends(node, neighbors, n + 1, g.node.path);
    hide Extends;
  }

  lemma LoggedAppend(entries: Log, g: Generated)
    ensures forall p :: Logged(entries, p) ==> Logged(entries + [g], p)
    ensures Logged(entries + [g], g.node.path)
  {
    var r := entries + [g];
    assert r[|entries|] == g;
    forall p | Logged(entries, p)
      ensures Logged(r, p)
    {
      var i :| 0 <= i < |entries| && entries[i].node.path == p;
      assert r[i].node.path == p;
    }
  }

  /** The next neighbor's best pool is worth no more than those before it. */
  lemma NextSibling(f: Frame, node: SearchNode, neighbors: Ranking, n: nat, entries: Log, g: Generated)
    requires SiblingsRanked(f, entries) && FromFirst(node, neighbors, n, entries) && n < |neighbors| && node.path != []
    requires Ranks(neighbors, f.market, node.token) && node.token == node.path[|node.path| - 1]
    requires g.node.path == node.path + [neighbors[n].0]
    ensures SiblingsRanked(f, entries + [g])
  {
    hide Market.Ranked, Worth, Usable, NoLessWorth;
    var r := entries + [g];
    forall i, j | 0 <= i < j < |r| && Siblings(r[i].node.path, r[j].node.path)
      ensures NoLessWorth(f, r[i].node.path, r[j].node.path)
    {
      if j < |entries| {
        assert r[i] == entries[i] && r[j] == entries[j];
      } else {
        assert r[i] == entries[i] && r[j] == g;
        assert Extends(node, neighbors, n, entries[i].node.path);
        var k :| 0 <= k < n && k < |neighbors| && entries[i].node.path == node.path + [neighbors[k].0];
        NeighborsInOrder(f, node, neighbors, k, n);
      }
    }
  }

  lemma NeighborsInOrder(f: Frame, node: SearchNode, neighbors: Ranking, k: nat, n: nat)
    requires Ranks(neighbors, f.market, node.token) && node.path != [] && node.token == node.path[|node.path| - 1] && k < n < |neighbors|
    ensures NoLessWorth(f, node.path + [neighbors[k].0], node.path + [neighbors[n].0])
  {
    hide Market.Ranked, Worth, Usable;
    NeighborOrderLaw(f.market, node.token, neighbors);
    assert neighbors[k].1 == f.market.Ranked(node.token, neighbors[k].0) && neighbors[n].1 == f.market.Ranked(node.token, neighbors[n].0);
  }
}
