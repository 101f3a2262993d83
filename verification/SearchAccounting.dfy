/**
 What a search is accountable for (src/arbitrage/cycle_finder.rs): every qualifying path is reported,
 unless one of its prefixes was discarded by the beam or cut by the pruning bound.
 */
module SearchAccounting {
  import opened Types
  import opened Wrappers
  import opened PoolGraphs
  import opened PoolGraphObject
  import opened SearchNodes
  import opened PoolRanking
  import opened SearchSubgraph
  import opened SearchPaths
  import opened BeamTrace
  import opened SearchMeasure

  /** The paths in the order they were popped, and for each that met the bound the ratio it was computed with. */
  datatype Account = Account(popped: seq<Path>, consulted: map<Path, real>)

  ghost predicate Logged(log: Log, p: Path) {
    exists i :: 0 <= i < |log| && log[i].node.path == p
  }

  ghost predicate Discarded(log: Log, p: Path) {
    exists i :: 0 <= i < |log| && log[i].node.path == p && !log[i].pushed
  }

  ghost predicate LogOk(f: Frame, log: Log) {
    forall i :: 0 <= i < |log| ==> f.NodeOk(log[i].node)
  }

  /** The bound stands between a path and its expansion. */
  ghost predicate Bounded(f: Frame, p: Path) {
    !f.Closed(p) && |p| - 1 < f.config.maxHops
  }

  /** The bound cut the path: with the ratio consulted, even the best case misses the threshold. */
  ghost predicate Cut(f: Frame, account: Account, p: Path) {
    && p in account.consulted && f.SearchPath(p) && |p| - 1 < f.config.maxHops
    && UpperBound(f.NodeOf(p).profit, account.consulted[p], f.config.maxHops - (|p| - 1)) < f.MinMultiplier()
  }

  /** A popped path has been dealt with. */
  ghost predicate Settled(f: Frame, log: Log, account: Account, results: seq<ArbCycle>, p: Path) {
    && f.SearchPath(p)
    && (if f.Closed(p) then f.Qualifies(p) ==> CycleOf(f, p) in results
        else |p| - 1 >= f.config.maxHops || Cut(f, account, p)
             || forall v :: f.CanStep(p, v) ==> Logged(log, p + [v]))
  }

  ghost predicate Waiting(f: Frame, heap: seq<SearchNode>, account: Account, p: Path) {
    f.SearchPath(p) && (p in account.popped || f.NodeOf(p) in heap)
  }

  /** Nothing gets lost between the log, the heap and the popped paths. */
  ghost predicate Accounted(f: Frame, heap: seq<SearchNode>, log: Log, account: Account, results: seq<ArbCycle>) {
    && Waiting(f, heap, account, [f.Base()])
    && (forall i :: 0 <= i < |log| && log[i].pushed ==> Waiting(f, heap, account, log[i].node.path))
    && (forall p :: p in account.popped ==> Settled(f, log, account, results, p))
  }

  /** Some prefix of `p` was discarded by the beam or cut by the bound. */
  ghost predicate LostAt(f: Frame, log: Log, account: Account, p: Path, k: nat) {
    1 <= k <= |p| && (Discarded(log, p[..k]) || (k < |p| && Cut(f, account, p[..k])))
  }

  ghost predicate Lost(f: Frame, log: Log, account: Account, p: Path) {
    exists k :: LostAt(f, log, account, p, k)
  }

  /** A path is answered for: reported if it qualifies, unless one of its prefixes was lost. */
  ghost predicate Answered(f: Frame, log: Log, account: Account, results: seq<ArbCycle>, p: Path) {
    f.SearchPath(p) && (f.Qualifies(p) ==> CycleOf(f, p) in results || Lost(f, log, account, p))
  }

  lemma NextPopped(f: Frame, log: Log, account: Account, results: seq<ArbCycle>, q: Path, v: Pubkey)
    requires Accounted(f, [], log, account, results) && q in account.popped && !Cut(f, account, q)
    requires q != [] && f.CanStep(q, v) && !Discarded(log, q + [v])
    ensures q + [v] in account.popped
  {
    hide Frame.SearchPath, Frame.CanStep, Frame.NodeOf, Cut;
    StepOpen(f, q, v);
    assert Settled(f, log, account, results, q);
    assert Logged(log, q + [v]);
    var i :| 0 <= i < |log| && log[i].node.path == q + [v];
    assert log[i].pushed;
  }

  lemma NotLostAt(f: Frame, log: Log, account: Account, p: Path, k: nat)
    requires !Lost(f, log, account, p) && 1 <= k <= |p|
    ensures !Discarded(log, p[..k]) && (k < |p| ==> !Cut(f, account, p[..k]))
  {
    hide Cut;
    assert !LostAt(f, log, account, p, k);
  }

  lemma StepAt(f: Frame, p: Path, k: nat)
    requires f.SearchPath(p) && 1 <= k < |p|
    ensures f.CanStep(p[..k], p[k])
  {
    PrefixPath(f, p, k);
  }

  lemma BasePopped(f: Frame, log: Log, account: Account, results: seq<ArbCycle>)
    requires Accounted(f, [], log, account, results)
    ensures [f.Base()] in account.popped
  {
  }

  lemma {:induction false} PrefixPopped(f: Frame, log: Log, account: Account, results: seq<ArbCycle>, p: Path, k: nat)
    requires Accounted(f, [], log, account, results)
    requires f.SearchPath(p) && 1 <= k <= |p| && !Lost(f, log, account, p)
    ensures p[..k] in account.popped
  {
    hide Frame.SearchPath, Frame.CanStep, Accounted, Lost, Cut;
    if k == 1 {
      PathStartsAtBase(f, p);
      assert p[..1] == [f.Base()];
      BasePopped(f, log, account, results);
    } else {
      var q := p[..k - 1];
      PrefixPopped(f, log, account, results, p, k - 1);
      StepAt(f, p, k - 1);
      assert q + [p[k - 1]] == p[..k];
      NotLostAt(f, log, account, p, k - 1);
      NotLostAt(f, log, account, p, k);
      NextPopped(f, log, account, results, q, p[k - 1]);
    }
  }

  lemma StepOpen(f: Frame, p: Path, v: Pubkey)
    requires p != [] && f.CanStep(p, v)
    ensures !f.Closed(p) && |p| - 1 < f.config.maxHops
  {
  }

  /** When the heap is empty, every qualifying path is a result or was lost to the beam or the bound. */
  lemma NothingLostSilently(f: Frame, log: Log, account: Account, results: seq<ArbCycle>, p: Path)
    requires Accounted(f, [], log, account, results) && f.SearchPath(p)
    ensures Answered(f, log, account, results, p)
  {
    if f.Qualifies(p) && !Lost(f, log, account, p) {
      PrefixPopped(f, log, account, results, p, |p|);
      assert p[..|p|] == p;
      assert Settled(f, log, account, results, p);
    }
  }

  // ----- From graph cycles to search paths -----

  /** A simple cycle whose every hop has a usable pool, short enough, and through a seed if targeted. */
  ghost predicate Candidate(f: Frame, p: Path) {
    && SimpleCycle(f.market.adj, f.Base(), p) && |p| - 1 <= f.config.maxHops && f.config.poolAlternatives > 0
    && (forall i :: 0 <= i < |p| - 1 ==> f.market.Ranked(p[i], p[i + 1]) != [])
    && (f.target.Some? ==> exists k :: 0 <= k < |p| && p[k] in f.target.value.seeds)
  }

  lemma {:induction false} CandidatePrefix(f: Frame, p: Path, k: nat)
    requires Candidate(f, p) && 1 <= k <= |p|
    requires f.target.Some? ==> forall i :: 0 <= i < |p| ==> p[i] in f.target.value.allowed
    ensures f.SearchPath(p[..k])
  {
    hide Market.Ranked;
    if k > 1 {
      CandidatePrefix(f, p, k - 1);
      assert p[..k][..k - 1] == p[..k - 1];
      var v := p[k - 1];
      assert f.market.Ranked(p[k - 2], p[k - 2 + 1]) != [];
      assert f.CanStep(p[..k - 1], v);
    }
  }

  /** The search considers every candidate: in a targeted search the subgraph filter excludes none. */
  lemma CandidatesAreSearchPaths(f: Frame, s: GraphState, p: Path)
    requires f.market.adj == s.adj && Valid(s) && Candidate(f, p)
    requires f.target.Some? ==>
               f.target.value.allowed
               == AreaOf(s.adj, f.Base(), f.target.value.seeds).Reach(f.config.maxHops) + {f.Base()}
    ensures f.SearchPath(p) && f.Closed(p)
  {
    hide Market.Ranked;
    if f.target.Some? {
      var k :| 0 <= k < |p| && p[k] in f.target.value.seeds;
      CyclesThroughSeedsSurvive(s, f.Base(), f.target.value.seeds, f.config.maxHops, p, k);
    }
    CandidatePrefix(f, p, |p|);
    assert p[..|p|] == p;
  }

  // ----- Bookkeeping steps -----

  lemma StartAccounted(f: Frame)
    ensures f.SearchPath([f.Base()]) && f.NodeOk(Start(f.Base()))
    ensures Accounted(f, [Start(f.Base())], [], Account([], map[]), [])
  {
    assert f.HopsOf([f.Base()]) == [];
    assert f.NodeOf([f.Base()]) == Start(f.Base());
  }

  lemma StillInHeap(heap: seq<SearchNode>, i: nat, n: SearchNode)
    requires i < |heap| && n in heap && n != heap[i]
    ensures n in Without(heap, i)
  {
    var j :| 0 <= j < |heap| && heap[j] == n;
    if j < i {
      assert Without(heap, i)[j] == n;
    } else {
      assert Without(heap, i)[j - 1] == n;
    }
  }

  lemma StillWaiting(f: Frame, heap: seq<SearchNode>, i: nat, account: Account, account': Account,
                     added: seq<SearchNode>, p: Path)
    requires i < |heap| && f.NodeOk(heap[i]) && Waiting(f, heap, account, p)
    requires account'.popped == account.popped + [heap[i].path]
    ensures Waiting(f, Without(heap, i) + added, account', p)
  {
    hide Frame.SearchPath, Frame.NodeOf;
    if p !in account'.popped {
      PathOfNode(f, p);
      StillInHeap(heap, i, f.NodeOf(p));
    }
  }

  lemma PathOfNode(f: Frame, p: Path)
    requires f.SearchPath(p)
    ensures f.NodeOf(p).path == p
  {
    NodeShape(f, p);
  }

  /** `later` keeps every ratio `earlier` recorded. */
  ghost predicate Consults(earlier: Account, later: Account) {
    forall p :: p in earlier.consulted ==> p in later.consulted && later.consulted[p] == earlier.consulted[p]
  }

  lemma CutIsConsulted(f: Frame, account: Account, p: Path)
    requires Cut(f, account, p)
    ensures p in account.consulted
  {
  }

  lemma StillCut(f: Frame, account: Account, account': Account, p: Path)
    requires Consults(account, account') && p in account.consulted
    ensures Cut(f, account, p) <==> Cut(f, account', p)
  {
    hide Frame.SearchPath, Frame.NodeOf, UpperBound;
  }

  lemma StillSettled(f: Frame, log: Log, account: Account, results: seq<ArbCycle>, p: Path,
                     log': Log, account': Account, results': seq<ArbCycle>)
    requires Settled(f, log, account, results, p)
    requires log <= log' && Consults(account, account') && results <= results'
    ensures Settled(f, log', account', results', p)
  {
    hide Frame.SearchPath, Frame.CanStep, Frame.NodeOf, CycleOf, Frame.Qualifies, Cut, Consults;
    if f.Closed(p) {
      if f.Qualifies(p) {
        var i :| 0 <= i < |results| && results[i] == CycleOf(f, p);
        assert results'[i] == results[i];
      }
    } else if Cut(f, account, p) {
      CutIsConsulted(f, account, p);
      StillCut(f, account, account', p);
    } else if |p| - 1 < f.config.maxHops {
      PathStartsAtBase(f, p);
      forall v | f.CanStep(p, v)
        ensures Logged(log', p + [v])
      {
        assert Logged(log, p + [v]);
        var i :| 0 <= i < |log| && log[i].node.path == p + [v];
        assert log'[i] == log[i];
      }
    }
  }

  /** One round of the loop keeps the books, whatever was added, logged, pruned or reported. */
  lemma RoundKeepsBooks(f: Frame, heap: seq<SearchNode>, i: nat, log: Log, account: Account, results: seq<ArbCycle>,
                        added: seq<SearchNode>, entries: Log, account': Account, results': seq<ArbCycle>)
    requires Accounted(f, heap, log, account, results) && i < |heap| && f.NodeOk(heap[i])
    requires account'.popped == account.popped + [heap[i].path]
    requires Consults(account, account') && results <= results'
    requires forall k :: 0 <= k < |entries| && entries[k].pushed ==>
               f.NodeOk(entries[k].node) && entries[k].node in added
    requires Settled(f, log + entries, account', results', heap[i].path)
    ensures Accounted(f, Without(heap, i) + added, log + entries, account', results')
  {
    hide Frame.SearchPath, Frame.NodeOf, Without, Settled, Consults;
    var heap' := Without(heap, i) + added;
    var log' := log + entries;
    StillWaiting(f, heap, i, account, account', added, [f.Base()]);
    forall k | 0 <= k < |log'| && log'[k].pushed
      ensures Waiting(f, heap', account', log'[k].node.path)
    {
      if k < |log| {
        assert log'[k] == log[k];
        StillWaiting(f, heap, i, account, account', added, log[k].node.path);
      } else {
        assert log'[k] == entries[k - |log|];
      }
    }
    forall p | p in account'.popped
      ensures Settled(f, log', account', results', p)
    {
      if p in account.popped {
        StillSettled(f, log, account, results, p, log', account', results');
      }
    }
  }
}
