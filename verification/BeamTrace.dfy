/**
 The beam of a search run (src/arbitrage/cycle_finder.rs:171-173, 255-273): per depth a count and a
 minimum score decide whether a generated node is pushed or discarded. Proved here: whatever was
 discarded was dominated by a full beam, so the pushed nodes of a depth contain a true Top-K.
 */
module BeamTrace {
  import opened Wrappers
  import opened Collections
  import opened SearchNodes

  /** A node the search generated, and whether it entered the queue. */
  datatype Generated = Generated(node: SearchNode, pushed: bool)

  type Log = seq<Generated>

  /** How many nodes pushed at depth `d` score at least `s`. */
  ghost function PushedAtLeast(log: Log, d: nat, s: real): nat {
    if log == [] then 0
    else
      var last := log[|log| - 1];
      PushedAtLeast(log[..|log| - 1], d, s)
      + if last.pushed && last.node.depth == d && last.node.score >= s then 1 else 0
  }

  lemma PushedAtLeastAppend(log: Log, g: Generated, d: nat, s: real)
    ensures PushedAtLeast(log + [g], d, s)
            == PushedAtLeast(log, d, s) + if g.pushed && g.node.depth == d && g.node.score >= s then 1 else 0
  {
    assert (log + [g])[..|log|] == log;
  }

  lemma {:induction false} LowerThresholdCountsMore(log: Log, d: nat, s: real, t: real)
    requires s <= t
    ensures PushedAtLeast(log, d, t) <= PushedAtLeast(log, d, s)
  {
    if log != [] {
      LowerThresholdCountsMore(log[..|log| - 1], d, s, t);
    }
  }

  /** Dominance: when a node is discarded, `k` nodes of its depth scoring no lower have been pushed. */
  ghost predicate Dominated(log: Log, k: nat) {
    forall i :: 0 <= i < |log| && !log[i].pushed ==>
      PushedAtLeast(log[..i], log[i].node.depth, log[i].node.score) >= k
  }

  // ----- The counters -----

  /** Per depth: how many nodes were counted into the beam, and their least score (None: unset). */
  datatype Beam = Beam(counts: map<nat, nat>, minScores: map<nat, Option<real>>) {
    function Count(d: nat): nat {
      if d in counts then counts[d] else 0
    }

    function MinScore(d: nat): Option<real> {
      if d in minScores then minScores[d] else None
    }

    /** Admits a node: there is room, or it beats the least score. Returns the updated counters. */
    function Admit(node: SearchNode, k: nat): (Beam, bool) {
      var d := node.depth;
      var least := MinScore(d);
      if Count(d) < k then
        (Beam(counts[d := Count(d) + 1],
              minScores[d := if least.None? || node.score < least.value then Some(node.score) else least]),
         true)
      else
        (Beam(counts[d := Count(d)], minScores[d := least]), least.None? || node.score > least.value)
    }
  }

  ghost predicate BeamOk(beam: Beam, log: Log, k: nat) {
    (forall d: nat :: DepthOk(beam, log, k, d) && CountersOk(beam, log, k, d)) && Followed(log, k)
  }

  ghost predicate DepthOk(beam: Beam, log: Log, k: nat, d: nat) {
    && beam.Count(d) <= k
    && (beam.Count(d) > 0 <==> beam.MinScore(d).Some?)
    && (beam.MinScore(d).Some? ==> PushedAtLeast(log, d, beam.MinScore(d).value) >= beam.Count(d))
  }

  // ----- The rule, without counters -----

  /** How many nodes of depth `d` were generated. */
  ghost function NumberAt(log: Log, d: nat): nat {
    if log == [] then 0
    else NumberAt(log[..|log| - 1], d) + if log[|log| - 1].node.depth == d then 1 else 0
  }

  /** The node at `i` is one of the first `k` of its depth. */
  ghost predicate Early(log: Log, k: nat, i: nat)
    requires i < |log|
  {
    NumberAt(log[..i], log[i].node.depth) < k
  }

  /** The node at `i` beats one of the first `k` of its depth. */
  ghost predicate BeatsEarly(log: Log, k: nat, i: nat)
    requires i < |log|
  {
    exists j :: 0 <= j < i && log[j].node.depth == log[i].node.depth && Early(log, k, j) && log[j].node.score < log[i].node.score
  }

  /** A node is pushed exactly if it is one of the first `k` of its depth or beats one of those. */
  ghost predicate Followed(log: Log, k: nat) {
    forall i :: 0 <= i < |log| ==> (log[i].pushed <==> k == 0 || Early(log, k, i) || BeatsEarly(log, k, i))
  }

  /** The counters hold the number of the first `k` nodes of a depth and their least score. */
  ghost predicate CountersOk(beam: Beam, log: Log, k: nat, d: nat) {
    && beam.Count(d) == (if NumberAt(log, d) < k then NumberAt(log, d) else k)
    && (beam.MinScore(d).Some? <==> beam.Count(d) > 0)
    && (beam.MinScore(d).Some? ==> IsLeast(log, k, d, beam.MinScore(d).value))
  }

  /** `least` is the least score of the first `k` nodes of depth `d`. */
  ghost predicate IsLeast(log: Log, k: nat, d: nat, least: real) {
    && (exists i :: EarlyAt(log, k, d, i) && log[i].node.score == least)
    && (forall i :: EarlyAt(log, k, d, i) ==> least <= log[i].node.score)
  }

  ghost predicate EarlyAt(log: Log, k: nat, d: nat, i: int) {
    0 <= i < |log| && log[i].node.depth == d && Early(log, k, i)
  }

  lemma NumberAtAppend(log: Log, g: Generated, d: nat)
    ensures NumberAt(log + [g], d) == NumberAt(log, d) + if g.node.depth == d then 1 else 0
  {
    assert (log + [g])[..|log|] == log;
  }

  /** Being early does not change as the log grows, and neither does beating an early one. */
  lemma EarlyStays(log: Log, g: Generated, k: nat, i: nat)
    requires i < |log|
    ensures Early(log + [g], k, i) <==> Early(log, k, i)
  {
    assert (log + [g])[..i] == log[..i] && (log + [g])[i] == log[i];
  }

  lemma BeatsStays(log: Log, g: Generated, k: nat, i: nat)
    requires i < |log|
    ensures BeatsEarly(log + [g], k, i) <==> BeatsEarly(log, k, i)
  {
    hide Early;
    forall j | 0 <= j <= i
      ensures (log + [g])[j] == log[j] && (Early(log + [g], k, j) <==> Early(log, k, j))
    {
      EarlyStays(log, g, k, j);
    }
  }

  /** The decision taken from the counters is the rule's. */
  lemma DecisionFollows(beam: Beam, log: Log, k: nat, node: SearchNode)
    requires CountersOk(beam, log, k, node.depth)
    ensures var (_, pushed) := beam.Admit(node, k);
            var longer := log + [Generated(node, pushed)];
            pushed <==> k == 0 || Early(longer, k, |log|) || BeatsEarly(longer, k, |log|)
  {
    var (_, pushed) := beam.Admit(node, k);
    var g := Generated(node, pushed);
    var longer, d := log + [g], node.depth;
    assert longer[..|log|] == log && longer[|log|] == g;
    forall j | 0 <= j < |log|
      ensures longer[j] == log[j] && (Early(longer, k, j) <==> Early(log, k, j))
    {
      EarlyStays(log, g, k, j);
    }
    assert Early(longer, k, |log|) <==> NumberAt(log, d) < k;
    hide Early, NumberAt;
    if k > 0 && beam.Count(d) >= k {
      var least := beam.MinScore(d).value;
      if j :| 0 <= j < |log| && longer[j].node.depth == d && Early(longer, k, j) && longer[j].node.score < node.score {
        assert EarlyAt(log, k, d, j);
      }
      if pushed {
        var i :| EarlyAt(log, k, d, i) && log[i].node.score == least;
        assert longer[i].node.depth == longer[|log|].node.depth && Early(longer, k, i) && longer[i].node.score < longer[|log|].node.score;
      }
    }
  }

  lemma FollowedAppend(beam: Beam, log: Log, k: nat, node: SearchNode)
    requires Followed(log, k) && CountersOk(beam, log, k, node.depth)
    ensures Followed(log + [Generated(node, beam.Admit(node, k).1)], k)
  {
    hide CountersOk, Early, BeatsEarly, Beam.Admit;
    var g := Generated(node, beam.Admit(node, k).1);
    var longer := log + [g];
    forall i | 0 <= i < |longer|
      ensures longer[i].pushed <==> k == 0 || Early(longer, k, i) || BeatsEarly(longer, k, i)
    {
      if i < |log| {
        assert longer[i] == log[i];
        EarlyStays(log, g, k, i);
        BeatsStays(log, g, k, i);
      } else {
        DecisionFollows(beam, log, k, node);
      }
    }
  }

  lemma EarlyAfter(log: Log, g: Generated, k: nat, d: nat, i: int)
    ensures EarlyAt(log + [g], k, d, i) <==>
            EarlyAt(log, k, d, i) || (i == |log| && g.node.depth == d && NumberAt(log, d) < k)
  {
    var longer := log + [g];
    if 0 <= i < |log| {
      EarlyStays(log, g, k, i);
      assert longer[i] == log[i];
    } else if i == |log| {
      assert longer[..|log|] == log && longer[|log|] == g;
    }
  }

  lemma LeastStays(log: Log, g: Generated, k: nat, d: nat, least: real)
    requires IsLeast(log, k, d, least) && (g.node.depth != d || NumberAt(log, d) >= k)
    ensures IsLeast(log + [g], k, d, least)
  {
    hide EarlyAt, NumberAt;
    var longer := log + [g];
    forall i
      ensures EarlyAt(longer, k, d, i) <==> EarlyAt(log, k, d, i)
    {
      EarlyAfter(log, g, k, d, i);
    }
    ScoresStay(log, g, k, d);
  }

  lemma ScoresStay(log: Log, g: Generated, k: nat, d: nat)
    ensures forall i :: EarlyAt(log, k, d, i) ==> (log + [g])[i] == log[i]
  {
    hide Early;
  }

  lemma LeastTakes(log: Log, g: Generated, k: nat, d: nat, least: Option<real>)
    requires g.node.depth == d && NumberAt(log, d) < k
    requires if least.Some? then IsLeast(log, k, d, least.value) else NumberAt(log, d) == 0
    ensures IsLeast(log + [g], k, d, if least.None? || g.node.score < least.value then g.node.score else least.value)
  {
    if least.None? {
      NoneAt(log, d);
    }
    ScoresStay(log, g, k, d);
    var longer := log + [g];
    assert longer[|log|] == g;
    forall i
      ensures EarlyAt(longer, k, d, i) <==> EarlyAt(log, k, d, i) || i == |log|
    {
      EarlyAfter(log, g, k, d, i);
    }
    assert forall i :: EarlyAt(log, k, d, i) ==> 0 <= i < |log| && log[i].node.depth == d;
    hide EarlyAt, NumberAt;
    assert EarlyAt(longer, k, d, |log|);
  }

  lemma {:induction false} NoneAt(log: Log, d: nat)
    requires NumberAt(log, d) == 0
    ensures forall i :: 0 <= i < |log| ==> log[i].node.depth != d
  {
    if log != [] {
      NoneAt(log[..|log| - 1], d);
    }
  }

  lemma CountersStep(beam: Beam, log: Log, k: nat, node: SearchNode, d: nat)
    requires CountersOk(beam, log, k, d)
    ensures CountersOk(beam.Admit(node, k).0, log + [Generated(node, beam.Admit(node, k).1)], k, d)
  {
    hide IsLeast, NumberAt;
    var g := Generated(node, beam.Admit(node, k).1);
    NumberAtAppend(log, g, d);
    if node.depth == d && NumberAt(log, d) < k {
      LeastTakes(log, g, k, d, beam.MinScore(d));
    } else if beam.MinScore(d).Some? {
      LeastStays(log, g, k, d, beam.MinScore(d).value);
    }
  }

  lemma BeamFollows(beam: Beam, log: Log, k: nat)
    requires BeamOk(beam, log, k)
    ensures Followed(log, k)
  {
  }

  lemma StartBeamOk(k: nat)
    ensures BeamOk(Beam(map[], map[]), [], k) && Dominated([], k)
  {
  }

  /** Every admission decision keeps the counters right and the log dominated. */
  lemma AdmitKeepsBeam(beam: Beam, log: Log, k: nat, node: SearchNode)
    requires BeamOk(beam, log, k) && Dominated(log, k)
    ensures var (beam', pushed) := beam.Admit(node, k);
            BeamOk(beam', log + [Generated(node, pushed)], k) && Dominated(log + [Generated(node, pushed)], k)
  {
    hide Followed, CountersOk, DepthOk, Dominated, Beam.Admit;
    var (beam', pushed) := beam.Admit(node, k);
    var g := Generated(node, pushed);
    assert CountersOk(beam, log, k, node.depth) && DepthOk(beam, log, k, node.depth);
    FollowedAppend(beam, log, k, node);
    forall d: nat
      ensures DepthOk(beam', log + [g], k, d) && CountersOk(beam', log + [g], k, d)
    {
      assert DepthOk(beam, log, k, d) && CountersOk(beam, log, k, d);
      CountersStep(beam, log, k, node, d);
      DepthStep(beam, log, k, node, d);
    }
    DiscardDominated(beam, log, k, node);
    DominatedAppend(log, g, k);
  }

  lemma DepthStep(beam: Beam, log: Log, k: nat, node: SearchNode, d: nat)
    requires DepthOk(beam, log, k, d)
    ensures DepthOk(beam.Admit(node, k).0, log + [Generated(node, beam.Admit(node, k).1)], k, d)
  {
    var (beam', pushed) := beam.Admit(node, k);
    if beam'.MinScore(d).Some? {
      PushedAtLeastAppend(log, Generated(node, pushed), d, beam'.MinScore(d).value);
      if beam.MinScore(d).Some? {
        LowerThresholdCountsMore(log, d, beam'.MinScore(d).value, beam.MinScore(d).value);
      }
    }
  }

  lemma DiscardDominated(beam: Beam, log: Log, k: nat, node: SearchNode)
    requires DepthOk(beam, log, k, node.depth)
    ensures beam.Admit(node, k).1 || PushedAtLeast(log, node.depth, node.score) >= k
  {
    if !beam.Admit(node, k).1 {
      LowerThresholdCountsMore(log, node.depth, node.score, beam.MinScore(node.depth).value);
    }
  }

  lemma DominatedAppend(log: Log, g: Generated, k: nat)
    requires Dominated(log, k)
    requires g.pushed || PushedAtLeast(log, g.node.depth, g.node.score) >= k
    ensures Dominated(log + [g], k)
  {
    var longer := log + [g];
    forall i | 0 <= i < |longer| && !longer[i].pushed
      ensures PushedAtLeast(longer[..i], longer[i].node.depth, longer[i].node.score) >= k
    {
      if i < |log| {
        assert longer[..i] == log[..i] && longer[i] == log[i];
      } else {
        assert longer[..i] == log;
      }
    }
  }

  // ----- Top-K over a whole run -----

  ghost predicate AtDepth(log: Log, d: nat, i: int) {
    0 <= i < |log| && log[i].node.depth == d
  }

  /** `top` is a true Top-|top| of the nodes generated at depth `d`, and all of it was pushed. */
  ghost predicate IsPushedTop(log: Log, d: nat, top: set<nat>) {
    && (forall i :: i in top ==> AtDepth(log, d, i) && log[i].pushed)
    && (forall i, j :: i in top && AtDepth(log, d, j) && j !in top ==> log[j].node.score <= log[i].node.score)
  }

  ghost function IndicesAtDepth(log: Log, d: nat): set<nat> {
    set i: nat | i < |log| && AtDepth(log, d, i)
  }

  ghost function PushedIndices(log: Log, d: nat, s: real): set<nat> {
    set i: nat | i < |log| && AtDepth(log, d, i) && log[i].pushed && log[i].node.score >= s
  }

  lemma {:induction false} PushedIndicesSize(log: Log, d: nat, s: real)
    ensures |PushedIndices(log, d, s)| == PushedAtLeast(log, d, s)
  {
    if log == [] {
      assert PushedIndices(log, d, s) == {};
    } else {
      PushedIndicesSize(log[..|log| - 1], d, s);
      hide PushedIndices;
      PushedIndicesGrow(log, d, s);
    }
  }

  lemma PushedIndicesGrow(log: Log, d: nat, s: real)
    requires log != []
    ensures var n := |log| - 1;
            var before := PushedIndices(log[..n], d, s);
            && n !in before
            && PushedIndices(log, d, s) == before + if log[n].pushed && log[n].node.depth == d && log[n].node.score >= s then {n} else {}
  {
    var n := |log| - 1;
    assert forall i :: 0 <= i < n ==> log[..n][i] == log[i];
  }

  /** If fewer than `k` nodes are taken, some best remaining node was pushed. */
  lemma BestRemainingIsPushed(log: Log, k: nat, d: nat, top: set<nat>, j: nat) returns (best: nat)
    requires Dominated(log, k) && |top| < k && AtDepth(log, d, j) && j !in top
    ensures AtDepth(log, d, best) && best !in top && log[best].pushed && log[best].node.score >= log[j].node.score
  {
    if log[j].pushed {
      best := j;
    } else {
      var s := log[j].node.score;
      var pool := PushedIndices(log[..j], d, s);
      PushedIndicesSize(log[..j], d, s);
      if pool <= top {
        SubsetSize(pool, top);
      }
      best :| best in pool && best !in top;
      assert log[..j][best] == log[best];
    }
  }

  /** The best pushed node outside `top`, scanning the nodes below `n`. */
  lemma {:induction false} MaxPushed(log: Log, d: nat, top: set<nat>, w: nat, n: nat) returns (best: nat)
    requires n <= |log| && AtDepth(log, d, w) && w !in top && log[w].pushed
    ensures AtDepth(log, d, best) && best !in top && log[best].pushed && log[best].node.score >= log[w].node.score
    ensures forall i :: 0 <= i < n && AtDepth(log, d, i) && i !in top && log[i].pushed ==>
              log[i].node.score <= log[best].node.score
  {
    if n == 0 {
      best := w;
    } else {
      best := MaxPushed(log, d, top, w, n - 1);
      if AtDepth(log, d, n - 1) && n - 1 !in top && log[n - 1].pushed
         && log[n - 1].node.score > log[best].node.score {
        best := n - 1;
      }
    }
  }

  /**
   Main result: for every run, depth and n up to the beam width, if at least n nodes were generated at
   that depth then the pushed ones contain n nodes no generated node outside of them outscores.
   */
  lemma {:induction false} PushedContainTop(log: Log, k: nat, d: nat, n: nat)
    requires Dominated(log, k) && n <= k && n <= |IndicesAtDepth(log, d)|
    ensures exists top :: IsPushedTop(log, d, top) && |top| == n
  {
    hide Dominated, IndicesAtDepth, IsPushedTop;
    if n == 0 {
      NoneIsTop(log, d);
    } else {
      PushedContainTop(log, k, d, n - 1);
      var top :| IsPushedTop(log, d, top) && |top| == n - 1;
      var j := SomeOther(log, d, top);
      var w := BestRemainingIsPushed(log, k, d, top, j);
      var best := MaxPushed(log, d, top, w, |log|);
      forall i | AtDepth(log, d, i) && i !in top
        ensures log[i].node.score <= log[best].node.score
      {
        var b := BestRemainingIsPushed(log, k, d, top, i);
      }
      TopGrows(log, d, top, best);
    }
  }

  lemma NoneIsTop(log: Log, d: nat)
    ensures IsPushedTop(log, d, {})
  {
  }

  lemma TopGrows(log: Log, d: nat, top: set<nat>, best: nat)
    requires IsPushedTop(log, d, top) && best !in top && AtDepth(log, d, best) && log[best].pushed
    requires forall i :: AtDepth(log, d, i) && i !in top ==> log[i].node.score <= log[best].node.score
    ensures IsPushedTop(log, d, top + {best}) && |top + {best}| == |top| + 1
  {
  }

  lemma SomeOther(log: Log, d: nat, top: set<nat>) returns (j: nat)
    requires IsPushedTop(log, d, top) && |top| < |IndicesAtDepth(log, d)|
    ensures AtDepth(log, d, j) && j !in top
  {
    if IndicesAtDepth(log, d) <= top {
      SubsetSize(IndicesAtDepth(log, d), top);
    }
    j :| j in IndicesAtDepth(log, d) && j !in top;
  }
}
