/**
 The record of a search run (src/arbitrage/cycle_finder.rs:179-275) is a true one: every generated path
 extends an expanded one and occurs once, paths are popped once, in best-first order and after their
 parents, and the bound consults exactly the ratio the cache holds at that moment.
 */
module SearchTrace {
  import opened SearchNodes
  import opened PoolRanking
  import opened RankingLaws
  import opened SearchPaths
  import opened BeamTrace
  import opened SearchMeasure
  import opened SearchAccounting

  function Parent(p: Path): Path
    requires p != []
  {
    p[..|p| - 1]
  }

  ghost predicate DistinctPaths(paths: seq<Path>) {
    forall i, j :: 0 <= i < j < |paths| ==> paths[i] != paths[j]
  }

  function LogPaths(log: Log): (r: seq<Path>)
    ensures |r| == |log| && forall i :: 0 <= i < |r| ==> r[i] == log[i].node.path
  {
    seq(|log|, i requires 0 <= i < |log| => log[i].node.path)
  }

  function HeapPaths(heap: seq<SearchNode>): (r: seq<Path>)
    ensures |r| == |heap| && forall i :: 0 <= i < |r| ==> r[i] == heap[i].path
  {
    seq(|heap|, i requires 0 <= i < |heap| => heap[i].path)
  }

  ghost predicate PushedPath(log: Log, p: Path) {
    exists i :: 0 <= i < |log| && log[i].pushed && log[i].node.path == p
  }

  /** The path passed the bound. */
  ghost predicate Passed(f: Frame, account: Account, p: Path) {
    p in account.consulted && !Cut(f, account, p)
  }

  // ----- Generated paths -----

  /** The best pool of `p`'s last hop is worth at least as much as that of `q`'s. */
  ghost predicate NoLessWorth(f: Frame, p: Path, q: Path)
    requires |p| > 1 && |q| > 1
  {
    var u, v, u', v' := p[|p| - 2], p[|p| - 1], q[|q| - 2], q[|q| - 1];
    && f.market.Ranked(u, v) != [] && f.market.Ranked(u', v') != []
    && Usable(f.market, u, v, f.market.Ranked(u, v)[0].edge) && Usable(f.market, u', v', f.market.Ranked(u', v')[0].edge)
    && Worth(f.market, u, v, f.market.Ranked(u, v)[0].edge) >= Worth(f.market, u', v', f.market.Ranked(u', v')[0].edge)
  }

  /** Extensions of one path are generated in descending worth. */
  ghost predicate SiblingsRanked(f: Frame, log: Log) {
    forall i, j :: 0 <= i < j < |log| && Siblings(log[i].node.path, log[j].node.path) ==>
      NoLessWorth(f, log[i].node.path, log[j].node.path)
  }

  ghost predicate Siblings(p: Path, q: Path) {
    |p| > 1 && |q| > 1 && Parent(p) == Parent(q)
  }

  /** Each path is generated once, by expanding the path it extends, siblings in descending worth. */
  ghost predicate LogTraced(f: Frame, log: Log, account: Account) {
    && DistinctPaths(LogPaths(log)) && SiblingsRanked(f, log)
    && (forall i :: 0 <= i < |log| ==> Generates(f, account, log[i].node.path))
  }

  ghost predicate Generates(f: Frame, account: Account, p: Path) {
    |p| > 1 && Parent(p) in account.popped && Passed(f, account, Parent(p))
  }

  // ----- Popped paths -----

  /** Where the path popped at `i` came from: base comes first, all others were pushed after their parent was popped. */
  ghost predicate Origin(f: Frame, log: Log, account: Account, i: nat)
    requires i < |account.popped|
  {
    var p := account.popped[i];
    if p == [f.Base()] then i == 0
    else |p| > 1 && PushedPath(log, p) && Parent(p) in account.popped[..i]
  }

  ghost predicate PopTraced(f: Frame, log: Log, account: Account) {
    && DistinctPaths(account.popped)
    && (forall i :: 0 <= i < |account.popped| ==> Origin(f, log, account, i))
    && (forall p :: p in account.consulted <==> p in account.popped && Bounded(f, p))
  }

  /** What was generated but not yet popped when `i` was popped scores no higher. */
  ghost predicate BestFirst(f: Frame, log: Log, account: Account) {
    forall i, k :: 0 <= i < |account.popped| && 0 <= k < |log| ==> NotBefore(f, log, account, i, k)
  }

  ghost predicate NotBefore(f: Frame, log: Log, account: Account, i: nat, k: nat)
    requires i < |account.popped| && k < |log|
  {
    var p, q := account.popped[i], log[k].node.path;
    f.SearchPath(p)
    && (log[k].pushed && |q| > 1 && Parent(q) in account.popped[..i] && q !in account.popped[..i] ==>
          log[k].node.score <= f.NodeOf(p).score)
  }

  /** The heap holds unpopped paths, once each: base or pushed children of popped paths. */
  ghost predicate HeapTraced(f: Frame, heap: seq<SearchNode>, log: Log, account: Account) {
    && DistinctPaths(HeapPaths(heap))
    && (forall i :: 0 <= i < |heap| ==> InHeap(f, log, account, heap[i].path))
  }

  ghost predicate InHeap(f: Frame, log: Log, account: Account, p: Path) {
    && p !in account.popped
    && (if p == [f.Base()] then account.popped == []
        else |p| > 1 && PushedPath(log, p) && Parent(p) in account.popped)
  }

  ghost predicate Traced(f: Frame, log: Log, account: Account) {
    LogTraced(f, log, account) && PopTraced(f, log, account) && BestFirst(f, log, account)
  }

  // ----- What one expansion generates -----

  function PushedNodes(log: Log): seq<SearchNode> {
    if log == [] then []
    else PushedNodes(log[..|log| - 1]) + if log[|log| - 1].pushed then [log[|log| - 1].node] else []
  }

  /** The children of `node`: each a real node one step further, logged once; the pushed ones are added. */
  ghost predicate Expansion(f: Frame, node: SearchNode, added: seq<SearchNode>, entries: Log) {
    && added == PushedNodes(entries) && DistinctPaths(LogPaths(entries)) && SiblingsRanked(f, entries)
    && (forall k :: 0 <= k < |entries| ==> ChildOf(f, node, entries[k].node))
  }

  ghost predicate ChildOf(f: Frame, node: SearchNode, child: SearchNode) {
    && f.NodeOk(child) && child.depth == node.depth + 1
    && child.path != [] && Parent(child.path) == node.path
    && node.path != [] && f.CanStep(node.path, child.path[|child.path| - 1])
  }

  lemma {:induction false} PushedNodesAre(log: Log)
    ensures forall n :: n in PushedNodes(log) <==> exists k :: 0 <= k < |log| && log[k].pushed && log[k].node == n
  {
    if log != [] {
      var init, last := log[..|log| - 1], log[|log| - 1];
      PushedNodesAre(init);
      assert log == init + [last];
      forall n
        ensures n in PushedNodes(log) <==> exists k :: 0 <= k < |log| && log[k].pushed && log[k].node == n
      {
        if n in PushedNodes(init) {
          var k :| 0 <= k < |init| && init[k].pushed && init[k].node == n;
          assert log[k] == init[k];
        }
        if k :| 0 <= k < |log| && log[k].pushed && log[k].node == n {
          if k < |init| {
            assert init[k] == log[k];
          }
        }
      }
    }
  }

  lemma {:induction false} PushedNodesDistinct(log: Log)
    requires DistinctPaths(LogPaths(log))
    ensures DistinctPaths(HeapPaths(PushedNodes(log)))
  {
    if log != [] {
      var init, last := log[..|log| - 1], log[|log| - 1];
      assert forall i :: 0 <= i < |init| ==> LogPaths(init)[i] == LogPaths(log)[i];
      PushedNodesDistinct(init);
      PushedNodesAre(init);
      var before := PushedNodes(init);
      forall i | 0 <= i < |before|
        ensures before[i].path != last.node.path
      {
        assert before[i] in before;
        var k :| 0 <= k < |init| && init[k].pushed && init[k].node == before[i];
        assert LogPaths(log)[k] != LogPaths(log)[|log| - 1];
      }
    }
  }

  lemma {:induction false} PushedNodesFew(log: Log)
    ensures |PushedNodes(log)| <= |log|
  {
    if log != [] {
      PushedNodesFew(log[..|log| - 1]);
    }
  }

  // ----- One round of the loop -----

  /** The account after a path was popped; the ratio matters only where the bound is computed. */
  ghost function AfterPop(f: Frame, account: Account, p: Path, ratio: real): Account {
    Account(account.popped + [p], if Bounded(f, p) then account.consulted[p := ratio] else account.consulted)
  }

  lemma PopConsults(f: Frame, log: Log, account: Account, p: Path, ratio: real)
    requires PopTraced(f, log, account) && p !in account.popped
    ensures Consults(account, AfterPop(f, account, p, ratio)) && p !in account.consulted
  {
    hide Bounded, Origin, DistinctPaths;
  }

  lemma StillPassed(f: Frame, log: Log, account: Account, p: Path, ratio: real, q: Path)
    requires PopTraced(f, log, account) && p !in account.popped && Passed(f, account, q)
    ensures Passed(f, AfterPop(f, account, p, ratio), q)
  {
    hide Cut, PopTraced, AfterPop;
    var account' := AfterPop(f, account, p, ratio);
    PopConsults(f, log, account, p, ratio);
    assert q in account'.consulted;
    StillCut(f, account, account', q);
  }

  lemma PushedLater(log: Log, entries: Log, p: Path)
    requires PushedPath(log, p)
    ensures PushedPath(log + entries, p)
  {
    var i :| 0 <= i < |log| && log[i].pushed && log[i].node.path == p;
    assert (log + entries)[i] == log[i];
  }

  lemma StepOrigins(f: Frame, heap: seq<SearchNode>, at: nat, log: Log, entries: Log, account: Account, ratio: real, i: nat)
    requires HeapTraced(f, heap, log, account) && PopTraced(f, log, account) && at < |heap| && i <= |account.popped|
    ensures Origin(f, log + entries, AfterPop(f, account, heap[at].path, ratio), i)
  {
    hide Bounded, DistinctPaths, PushedPath;
    var account' := AfterPop(f, account, heap[at].path, ratio);
    assert account'.popped[..i] == account.popped[..i];
    var p := account'.popped[i];
    if i < |account.popped| {
      assert Origin(f, log, account, i);
    } else {
      assert InHeap(f, log, account, p);
      assert account.popped[..i] == account.popped;
    }
    if p != [f.Base()] {
      PushedLater(log, entries, p);
    }
  }

  lemma StepPopTraced(f: Frame, heap: seq<SearchNode>, at: nat, log: Log, entries: Log, account: Account, ratio: real)
    requires HeapTraced(f, heap, log, account) && PopTraced(f, log, account) && at < |heap|
    ensures PopTraced(f, log + entries, AfterPop(f, account, heap[at].path, ratio))
  {
    hide Bounded, Origin, PushedPath;
    var p, account' := heap[at].path, AfterPop(f, account, heap[at].path, ratio);
    assert InHeap(f, log, account, p);
    forall i | 0 <= i < |account'.popped|
      ensures Origin(f, log + entries, account', i)
    {
      StepOrigins(f, heap, at, log, entries, account, ratio, i);
    }
    hide InHeap, DistinctPaths;
    AppendDistinct(account.popped, p);
  }

  lemma AppendDistinct(paths: seq<Path>, p: Path)
    requires DistinctPaths(paths) && p !in paths
    ensures DistinctPaths(paths + [p])
  {
  }

  /** A child of a path that was never popped cannot have been generated before. */
  lemma ChildIsNew(f: Frame, log: Log, account: Account, node: SearchNode, child: SearchNode)
    requires LogTraced(f, log, account) && ChildOf(f, node, child) && node.path !in account.popped
    ensures forall i :: 0 <= i < |log| ==> log[i].node.path != child.path
  {
    hide Frame.NodeOk, Frame.CanStep, Passed;
    forall i | 0 <= i < |log|
      ensures log[i].node.path != child.path
    {
      assert Generates(f, account, log[i].node.path);
    }
  }

  lemma StepLogTraced(f: Frame, heap: seq<SearchNode>, at: nat, log: Log, account: Account, ratio: real,
                      added: seq<SearchNode>, entries: Log)
    requires HeapTraced(f, heap, log, account) && PopTraced(f, log, account) && LogTraced(f, log, account) && at < |heap|
    requires Expansion(f, heap[at], added, entries)
    requires entries != [] ==> Passed(f, AfterPop(f, account, heap[at].path, ratio), heap[at].path)
    ensures LogTraced(f, log + entries, AfterPop(f, account, heap[at].path, ratio))
  {
    hide PopTraced, Passed, ChildOf, SiblingsRanked;
    SiblingsStay(f, log, account, heap[at], added, entries) by {
      assert InHeap(f, log, account, heap[at].path);
    }
    var p, account', log' := heap[at].path, AfterPop(f, account, heap[at].path, ratio), log + entries;
    assert InHeap(f, log, account, p);
    hide InHeap;
    forall i | 0 <= i < |log'|
      ensures Generates(f, account', log'[i].node.path)
    {
      if i < |log| {
        assert log'[i] == log[i] && Generates(f, account, log[i].node.path);
        StillPassed(f, log, account, p, ratio, Parent(log[i].node.path));
      } else {
        ChildShape(f, heap[at], entries[i - |log|].node);
        assert account'.popped[|account.popped|] == p;
      }
    }
    forall i, j | 0 <= i < j < |log'|
      ensures LogPaths(log')[i] != LogPaths(log')[j]
    {
      if j < |log| {
        assert LogPaths(log)[i] != LogPaths(log)[j];
      } else if i >= |log| {
        assert LogPaths(entries)[i - |log|] != LogPaths(entries)[j - |log|];
      } else {
        ChildIsNew(f, log, account, heap[at], entries[j - |log|].node);
      }
    }
  }

  /** Siblings across two expansions do not occur. */
  lemma SiblingsStay(f: Frame, log: Log, account: Account, node: SearchNode, added: seq<SearchNode>, entries: Log)
    requires LogTraced(f, log, account) && Expansion(f, node, added, entries) && node.path !in account.popped
    ensures SiblingsRanked(f, log + entries)
  {
    hide ChildOf, NoLessWorth, Passed, DistinctPaths;
    var log' := log + entries;
    forall i, j | 0 <= i < j < |log'| && Siblings(log'[i].node.path, log'[j].node.path)
      ensures NoLessWorth(f, log'[i].node.path, log'[j].node.path)
    {
      if j < |log| {
        assert log'[i] == log[i] && log'[j] == log[j];
      } else if i >= |log| {
        assert log'[i] == entries[i - |log|] && log'[j] == entries[j - |log|];
      } else {
        assert Generates(f, account, log[i].node.path);
        ChildShape(f, node, entries[j - |log|].node);
      }
    }
  }

  lemma ChildShape(f: Frame, node: SearchNode, child: SearchNode)
    requires ChildOf(f, node, child)
    ensures |child.path| > 1 && Parent(child.path) == node.path
    ensures f.NodeOk(child) && child.depth == node.depth + 1
  {
    hide Frame.NodeOk, Frame.CanStep;
  }

  lemma ChildNotPopped(f: Frame, log: Log, account: Account, node: SearchNode, child: SearchNode)
    requires LogTraced(f, log, account) && PopTraced(f, log, account) && ChildOf(f, node, child)
    requires node.path !in account.popped
    ensures child.path !in account.popped && !PushedPath(log, child.path) && child.path != [f.Base()] && child.path != node.path
  {
    hide Frame.NodeOk, Frame.CanStep, Bounded, DistinctPaths;
    ChildIsNew(f, log, account, node, child);
    forall i | 0 <= i < |account.popped|
      ensures account.popped[i] != child.path
    {
      assert Origin(f, log, account, i);
    }
  }

  /** What stays in the heap. */
  lemma StillHeaped(f: Frame, heap: seq<SearchNode>, at: nat, log: Log, entries: Log, account: Account, ratio: real, i: nat)
    requires HeapTraced(f, heap, log, account) && at < |heap| && i < |heap| && i != at
    ensures InHeap(f, log + entries, AfterPop(f, account, heap[at].path, ratio), heap[i].path)
  {
    hide PushedPath, Bounded;
    assert HeapPaths(heap)[i] != HeapPaths(heap)[at];
    assert InHeap(f, log, account, heap[i].path) && InHeap(f, log, account, heap[at].path);
    if heap[i].path != [f.Base()] {
      PushedLater(log, entries, heap[i].path);
    }
  }

  lemma AddedIsChild(f: Frame, node: SearchNode, log: Log, entries: Log, added: seq<SearchNode>, n: SearchNode)
    requires Expansion(f, node, added, entries) && n in added
    ensures ChildOf(f, node, n) && PushedPath(log + entries, n.path)
  {
    hide ChildOf, DistinctPaths;
    PushedNodesAre(entries);
    var k :| 0 <= k < |entries| && entries[k].pushed && entries[k].node == n;
    assert (log + entries)[|log| + k] == entries[k];
  }

  /** What comes into the heap. */
  lemma NewlyHeaped(f: Frame, heap: seq<SearchNode>, at: nat, log: Log, entries: Log, account: Account, ratio: real,
                    added: seq<SearchNode>, n: SearchNode)
    requires HeapTraced(f, heap, log, account) && PopTraced(f, log, account) && LogTraced(f, log, account) && at < |heap|
    requires Expansion(f, heap[at], added, entries) && n in added
    ensures InHeap(f, log + entries, AfterPop(f, account, heap[at].path, ratio), n.path)
    ensures forall i :: 0 <= i < |heap| ==> heap[i].path != n.path
  {
    hide ChildOf, LogTraced, PopTraced, Expansion, PushedPath, InHeap, AfterPop, HeapTraced;
    AddedIsChild(f, heap[at], log, entries, added, n);
    HeapedIs(f, heap, log, account, at);
    ChildNotPopped(f, log, account, heap[at], n);
    ChildInHeap(f, log + entries, account, heap[at], n, ratio);
    forall i | 0 <= i < |heap|
      ensures heap[i].path != n.path
    {
      HeapedIs(f, heap, log, account, i);
    }
  }

  lemma HeapedIs(f: Frame, heap: seq<SearchNode>, log: Log, account: Account, i: nat)
    requires HeapTraced(f, heap, log, account) && i < |heap|
    ensures heap[i].path !in account.popped && (heap[i].path == [f.Base()] || PushedPath(log, heap[i].path))
  {
    hide PushedPath;
    assert InHeap(f, log, account, heap[i].path);
  }

  lemma ChildInHeap(f: Frame, log: Log, account: Account, node: SearchNode, n: SearchNode, ratio: real)
    requires ChildOf(f, node, n) && PushedPath(log, n.path) && n.path !in account.popped
    requires n.path != node.path && n.path != [f.Base()]
    ensures InHeap(f, log, AfterPop(f, account, node.path, ratio), n.path)
  {
    hide PushedPath, ChildOf, Bounded;
    ChildShape(f, node, n);
    var popped := account.popped + [node.path];
    assert popped[|account.popped|] == node.path;
  }

  lemma StepHeapTraced(f: Frame, heap: seq<SearchNode>, at: nat, log: Log, account: Account, ratio: real,
                       added: seq<SearchNode>, entries: Log)
    requires HeapTraced(f, heap, log, account) && PopTraced(f, log, account) && LogTraced(f, log, account) && at < |heap|
    requires Expansion(f, heap[at], added, entries)
    ensures HeapTraced(f, Without(heap, at) + added, log + entries, AfterPop(f, account, heap[at].path, ratio))
  {
    hide PopTraced, LogTraced, InHeap, Expansion, AfterPop;
    var rest := Without(heap, at);
    var heap', account' := rest + added, AfterPop(f, account, heap[at].path, ratio);
    forall i | 0 <= i < |heap'|
      ensures InHeap(f, log + entries, account', heap'[i].path)
    {
      if i < |rest| {
        StillHeaped(f, heap, at, log, entries, account, ratio, if i < at then i else i + 1);
      } else {
        assert added[i - |rest|] in added;
        NewlyHeaped(f, heap, at, log, entries, account, ratio, added, added[i - |rest|]);
      }
    }
    assert DistinctPaths(HeapPaths(added)) by {
      ExpansionDistinct(f, heap[at], added, entries);
    }
    forall i, j | 0 <= i < j < |heap'|
      ensures HeapPaths(heap')[i] != HeapPaths(heap')[j]
    {
      if j < |rest| {
        assert HeapPaths(heap)[if i < at then i else i + 1] != HeapPaths(heap)[if j < at then j else j + 1];
      } else if i >= |rest| {
        assert HeapPaths(added)[i - |rest|] != HeapPaths(added)[j - |rest|];
      } else {
        assert added[j - |rest|] in added;
        NewlyHeaped(f, heap, at, log, entries, account, ratio, added, added[j - |rest|]);
      }
    }
  }

  lemma ExpansionDistinct(f: Frame, node: SearchNode, added: seq<SearchNode>, entries: Log)
    requires Expansion(f, node, added, entries)
    ensures DistinctPaths(HeapPaths(added))
  {
    PushedNodesDistinct(entries);
  }

  /** At the moment of popping: whatever waits in the heap scores no higher. */
  lemma PopIsBest(f: Frame, heap: seq<SearchNode>, at: nat, log: Log, account: Account, results: seq<ArbCycle>, k: nat)
    requires Accounted(f, heap, log, account, results) && LogOk(f, log) && at < |heap| && k < |log|
    requires f.NodeOk(heap[at]) && forall n :: n in heap ==> n.score <= heap[at].score
    requires log[k].pushed && log[k].node.path !in account.popped
    ensures log[k].node.score <= f.NodeOf(heap[at].path).score
  {
    hide Frame.SearchPath, Frame.NodeOf, Settled;
    assert f.NodeOk(log[k].node);
    assert Waiting(f, heap, account, log[k].node.path);
  }

  lemma StepBestFirst(f: Frame, heap: seq<SearchNode>, at: nat, log: Log, account: Account, results: seq<ArbCycle>,
                      ratio: real, added: seq<SearchNode>, entries: Log)
    requires BestFirst(f, log, account) && Accounted(f, heap, log, account, results) && LogOk(f, log) && at < |heap|
    requires f.NodeOk(heap[at]) && heap[at].path !in account.popped
    requires forall n :: n in heap ==> n.score <= heap[at].score
    requires Expansion(f, heap[at], added, entries)
    ensures BestFirst(f, log + entries, AfterPop(f, account, heap[at].path, ratio))
  {
    hide Frame.SearchPath, Frame.NodeOf, Accounted, LogOk, ChildOf, Bounded;
    var p, account', log' := heap[at].path, AfterPop(f, account, heap[at].path, ratio), log + entries;
    forall i, k | 0 <= i < |account'.popped| && 0 <= k < |log'|
      ensures NotBefore(f, log', account', i, k)
    {
      assert account'.popped[..i] == account.popped[..i];
      if k >= |log| {
        ChildShape(f, heap[at], entries[k - |log|].node);
        if i < |account.popped| {
          PoppedIsPath(f, log, account, i, heap, results);
        }
      } else if i < |account.popped| {
        assert NotBefore(f, log, account, i, k);
      } else {
        assert account.popped[..i] == account.popped;
        if log[k].pushed && log[k].node.path !in account.popped {
          PopIsBest(f, heap, at, log, account, results, k);
        }
      }
    }
  }

  lemma PoppedIsPath(f: Frame, log: Log, account: Account, i: nat, heap: seq<SearchNode>, results: seq<ArbCycle>)
    requires Accounted(f, heap, log, account, results) && i < |account.popped|
    ensures f.SearchPath(account.popped[i])
  {
    assert Settled(f, log, account, results, account.popped[i]);
  }

  // ----- The beam keeps the best paths -----

  ghost function PathsAt(log: Log, positions: set<nat>): set<Path>
    requires forall i :: i in positions ==> i < |log|
  {
    set i | i in positions :: log[i].node.path
  }

  lemma OtherPath(log: Log, i: nat, j: nat)
    requires DistinctPaths(LogPaths(log)) && i < |log| && j < |log| && i != j
    ensures log[i].node.path != log[j].node.path
  {
    assert LogPaths(log)[if i < j then i else j] != LogPaths(log)[if i < j then j else i];
  }

  /** Positions of a log without repeated paths are as many as their paths. */
  lemma {:induction false} PathsAtSize(log: Log, positions: set<nat>)
    requires DistinctPaths(LogPaths(log)) && forall i :: i in positions ==> i < |log|
    ensures |PathsAt(log, positions)| == |positions|
  {
    if positions != {} {
      var i :| i in positions;
      var rest := positions - {i};
      PathsAtSize(log, rest);
      forall j | j in rest
        ensures log[j].node.path != log[i].node.path
      {
        OtherPath(log, i, j);
      }
      assert PathsAt(log, positions) == PathsAt(log, rest) + {log[i].node.path};
    }
  }

  /** `top` are pushed paths of depth `d`, and no other path generated at that depth outscores one of them. */
  ghost predicate IsTop(log: Log, d: nat, top: set<Path>) {
    && (forall p :: p in top ==> exists i :: AtDepth(log, d, i) && log[i].pushed && log[i].node.path == p)
    && (forall i, j :: AtDepth(log, d, i) && AtDepth(log, d, j) && log[i].node.path in top && log[j].node.path !in top ==>
          log[j].node.score <= log[i].node.score)
  }

  /**
   Main result: in every run, at every depth and for every n up to the beam width, if at least n paths were
   generated then n different pushed ones are a true top n of them.
   */
  lemma PushedContainTopPaths(log: Log, k: nat, d: nat, n: nat)
    requires Dominated(log, k) && DistinctPaths(LogPaths(log)) && n <= k && n <= |PathsAt(log, IndicesAtDepth(log, d))|
    ensures exists top :: IsTop(log, d, top) && |top| == n
  {
    hide Dominated, DistinctPaths, IsPushedTop;
    PathsAtSize(log, IndicesAtDepth(log, d));
    PushedContainTop(log, k, d, n);
    var positions :| IsPushedTop(log, d, positions) && |positions| == n;
    TopOfPositions(log, d, positions);
  }

  lemma TopOfPositions(log: Log, d: nat, positions: set<nat>)
    requires IsPushedTop(log, d, positions) && DistinctPaths(LogPaths(log))
    ensures (forall i :: i in positions ==> i < |log|) && IsTop(log, d, PathsAt(log, positions))
    ensures |PathsAt(log, positions)| == |positions|
  {
    assert forall i :: i in positions ==> AtDepth(log, d, i);
    PathsAtSize(log, positions);
    var top := PathsAt(log, positions);
    forall i | AtDepth(log, d, i) && log[i].node.path in top
      ensures i in positions
    {
      var j :| j in positions && log[j].node.path == log[i].node.path;
      if i != j {
        OtherPath(log, i, j);
      }
    }
    hide DistinctPaths;
    forall j | AtDepth(log, d, j) && log[j].node.path !in top
      ensures j !in positions
    {
    }
  }
}
