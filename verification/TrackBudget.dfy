/**
 The global pin budget (src/arbitrage/track_selection.rs:145-174): ranked bundles are taken whole while
 they fit, and what does not fit is displaced.
 */
module TrackBudget {
  import opened TrackBundles

  datatype Taken = Taken(selected: seq<SelectedPool>, displaced: seq<string>, mints: set<string>)

  function PoolNames(pools: seq<SelectedPool>): (names: seq<string>)
    ensures |names| == |pools| && forall i :: 0 <= i < |names| ==> names[i] == pools[i].pool
  {
    seq(|pools|, i requires 0 <= i < |pools| => pools[i].pool)
  }

  function TakeOne(before: Taken, b: MintBundle, maxPools: nat): Taken {
    if |b.pools| < 2 then before
    else if |before.selected| + |b.pools| > maxPools then before.(displaced := before.displaced + PoolNames(b.pools))
    else Taken(before.selected + b.pools, before.displaced, before.mints + {b.mint})
  }

  function Take(bundles: seq<MintBundle>, maxPools: nat): Taken {
    if bundles == [] then Taken([], [], {})
    else TakeOne(Take(bundles[..|bundles| - 1], maxPools), bundles[|bundles| - 1], maxPools)
  }

  method TakeLoop(bundles: seq<MintBundle>, maxPools: nat) returns (r: Taken)
    ensures r == Take(bundles, maxPools)
  {
    var selected: seq<SelectedPool> := [];
    var displaced: seq<string> := [];
    var mints: set<string> := {};
    for k := 0 to |bundles|
      invariant Taken(selected, displaced, mints) == Take(bundles[..k], maxPools)
    {
      var b := bundles[k];
      assert bundles[..k + 1][..k] == bundles[..k];
      if |b.pools| < 2 {
        continue;
      }
      if |selected| + |b.pools| > maxPools {
        displaced := displaced + PoolNames(b.pools);
        continue;
      }
      mints := mints + {b.mint};
      selected := selected + b.pools;
    }
    assert bundles[..|bundles|] == bundles;
    r := Taken(selected, displaced, mints);
  }

  // ----- What greedy selection guarantees -----

  /** The bundle at `k` is pinned: it still fits when its turn comes. */
  ghost predicate Fits(bundles: seq<MintBundle>, maxPools: nat, k: nat)
    requires k < |bundles|
  {
    |Take(bundles[..k], maxPools).selected| + |bundles[k].pools| <= maxPools
  }

  lemma {:induction false} WithinBudget(bundles: seq<MintBundle>, maxPools: nat)
    ensures |Take(bundles, maxPools).selected| <= maxPools
  {
    if bundles != [] {
      WithinBudget(bundles[..|bundles| - 1], maxPools);
    }
  }

  lemma TakeStep(bundles: seq<MintBundle>, maxPools: nat, k: nat)
    requires k < |bundles|
    ensures Take(bundles[..k + 1], maxPools) == TakeOne(Take(bundles[..k], maxPools), bundles[k], maxPools)
  {
    hide TakeOne;
    assert bundles[..k + 1][..k] == bundles[..k];
  }

  /** Selection and displacement only grow as the list is walked. */
  lemma {:induction false} Grows(bundles: seq<MintBundle>, maxPools: nat, k: nat, l: nat)
    requires k <= l <= |bundles|
    ensures Take(bundles[..k], maxPools).selected <= Take(bundles[..l], maxPools).selected
    ensures Take(bundles[..k], maxPools).displaced <= Take(bundles[..l], maxPools).displaced
    ensures Take(bundles[..k], maxPools).mints <= Take(bundles[..l], maxPools).mints
  {
    if k < l {
      hide Take;
      Grows(bundles, maxPools, k, l - 1);
      TakeStep(bundles, maxPools, l - 1);
    }
  }

  /** Taken whole: the pools of a fitting bundle stand as one block in the selection. */
  lemma FittingBundleIsSelected(bundles: seq<MintBundle>, maxPools: nat, k: nat)
    requires k < |bundles| && |bundles[k].pools| >= 2 && Fits(bundles, maxPools, k)
    ensures var r := Take(bundles, maxPools);
            var from := |Take(bundles[..k], maxPools).selected|;
            from + |bundles[k].pools| <= |r.selected| && r.selected[from..from + |bundles[k].pools|] == bundles[k].pools
            && bundles[k].mint in r.mints
  {
    hide Take;
    TakeStep(bundles, maxPools, k);
    Grows(bundles, maxPools, k + 1, |bundles|);
    assert bundles[..|bundles|] == bundles;
  }

  /** Displaced whole, and not even the budget left at the end would have been enough. */
  lemma DisplacedBundleNeverFits(bundles: seq<MintBundle>, maxPools: nat, k: nat)
    requires k < |bundles| && |bundles[k].pools| >= 2 && !Fits(bundles, maxPools, k)
    ensures var r := Take(bundles, maxPools);
            && |r.selected| + |bundles[k].pools| > maxPools
            && (forall sp :: sp in bundles[k].pools ==> sp.pool in r.displaced)
  {
    hide Take;
    TakeStep(bundles, maxPools, k);
    Grows(bundles, maxPools, k, |bundles|);
    Grows(bundles, maxPools, k + 1, |bundles|);
    assert bundles[..|bundles|] == bundles;
    var r := Take(bundles, maxPools);
    forall sp | sp in bundles[k].pools
      ensures sp.pool in r.displaced
    {
      var i :| 0 <= i < |bundles[k].pools| && bundles[k].pools[i] == sp;
      assert PoolNames(bundles[k].pools)[i] in Take(bundles[..k + 1], maxPools).displaced;
    }
  }

  /** A bundle pinned although a better-ranked one was displaced is strictly smaller. */
  lemma OvertakingBundleIsSmaller(bundles: seq<MintBundle>, maxPools: nat, k: nat, l: nat)
    requires k < l < |bundles| && !Fits(bundles, maxPools, k) && Fits(bundles, maxPools, l)
    ensures |bundles[l].pools| < |bundles[k].pools|
  {
    hide Take;
    Grows(bundles, maxPools, k, l);
  }

  /** Where the selected and displaced pools come from. */
  lemma {:induction false} Origins(bundles: seq<MintBundle>, maxPools: nat, n: nat)
    requires n <= |bundles|
    ensures var r := Take(bundles[..n], maxPools);
            && (forall sp :: sp in r.selected ==> SelectedFrom(bundles, maxPools, n, sp))
            && (forall p :: p in r.displaced ==> DisplacedFrom(bundles, maxPools, n, p))
            && (forall m :: m in r.mints ==> CountedFrom(bundles, maxPools, n, m))
  {
    if n > 0 {
      Origins(bundles, maxPools, n - 1);
      TakeStep(bundles, maxPools, n - 1);
      OriginsGrow(bundles, maxPools, n);
      hide Take, Fits;
      var before, after := Take(bundles[..n - 1], maxPools), Take(bundles[..n], maxPools);
      forall sp | sp in after.selected
        ensures SelectedFrom(bundles, maxPools, n, sp)
      {
        if sp !in before.selected {
          OriginHere(bundles, maxPools, n - 1);
          assert sp in bundles[n - 1].pools;
        }
      }
      forall p | p in after.displaced
        ensures DisplacedFrom(bundles, maxPools, n, p)
      {
        if p !in before.displaced {
          OriginHere(bundles, maxPools, n - 1);
          var i :| 0 <= i < |PoolNames(bundles[n - 1].pools)| && PoolNames(bundles[n - 1].pools)[i] == p;
          assert bundles[n - 1].pools[i] in bundles[n - 1].pools;
        }
      }
      forall m | m in after.mints
        ensures CountedFrom(bundles, maxPools, n, m)
      {
        if m !in before.mints {
          OriginHere(bundles, maxPools, n - 1);
        }
      }
    }
  }

  ghost predicate SelectedFrom(bundles: seq<MintBundle>, maxPools: nat, n: nat, sp: SelectedPool)
    requires n <= |bundles|
  {
    exists k :: 0 <= k < n && |bundles[k].pools| >= 2 && Fits(bundles, maxPools, k) && sp in bundles[k].pools
  }

  ghost predicate CountedFrom(bundles: seq<MintBundle>, maxPools: nat, n: nat, mint: string)
    requires n <= |bundles|
  {
    exists k :: 0 <= k < n && |bundles[k].pools| >= 2 && Fits(bundles, maxPools, k) && bundles[k].mint == mint
  }

  ghost predicate DisplacedFrom(bundles: seq<MintBundle>, maxPools: nat, n: nat, p: string)
    requires n <= |bundles|
  {
    exists k, sp :: 0 <= k < n && |bundles[k].pools| >= 2 && !Fits(bundles, maxPools, k) && sp in bundles[k].pools && sp.pool == p
  }

  lemma OriginHere(bundles: seq<MintBundle>, maxPools: nat, k: nat)
    requires k < |bundles|
    ensures var before := Take(bundles[..k], maxPools);
            var after := TakeOne(before, bundles[k], maxPools);
            && (after.selected != before.selected || after.mints != before.mints ==>
                  |bundles[k].pools| >= 2 && Fits(bundles, maxPools, k))
            && (after.displaced != before.displaced ==> |bundles[k].pools| >= 2 && !Fits(bundles, maxPools, k))
  {
    hide Take;
  }

  lemma OriginsGrow(bundles: seq<MintBundle>, maxPools: nat, n: nat)
    requires 0 < n <= |bundles|
    ensures forall sp :: SelectedFrom(bundles, maxPools, n - 1, sp) ==> SelectedFrom(bundles, maxPools, n, sp)
    ensures forall p :: DisplacedFrom(bundles, maxPools, n - 1, p) ==> DisplacedFrom(bundles, maxPools, n, p)
    ensures forall m :: CountedFrom(bundles, maxPools, n - 1, m) ==> CountedFrom(bundles, maxPools, n, m)
  {
    hide Fits;
  }

  /** No two bundles pin the same pool. */
  ghost predicate BundlesApart(bundles: seq<MintBundle>) {
    forall k, l, x, y :: 0 <= k < l < |bundles| && x in bundles[k].pools && y in bundles[l].pools ==> x.pool != y.pool
  }

  lemma Apart(bundles: seq<MintBundle>, k: nat, l: nat, x: SelectedPool, y: SelectedPool)
    requires BundlesApart(bundles) && k < |bundles| && l < |bundles| && k != l && x in bundles[k].pools && y in bundles[l].pools
    ensures x.pool != y.pool
  {
    assert k < l || l < k;
  }

  /** No pool is both selected and displaced, if no two bundles share a pool. */
  lemma SelectedAndDisplacedDisjoint(bundles: seq<MintBundle>, maxPools: nat, sp: SelectedPool)
    requires BundlesApart(bundles)
    requires sp in Take(bundles, maxPools).selected
    ensures sp.pool !in Take(bundles, maxPools).displaced
  {
    hide Take, Fits, BundlesApart;
    Origins(bundles, maxPools, |bundles|);
    assert bundles[..|bundles|] == bundles;
    assert SelectedFrom(bundles, maxPools, |bundles|, sp);
    var k :| 0 <= k < |bundles| && |bundles[k].pools| >= 2 && Fits(bundles, maxPools, k) && sp in bundles[k].pools;
    forall p | p in Take(bundles, maxPools).displaced
      ensures p != sp.pool
    {
      assert DisplacedFrom(bundles, maxPools, |bundles|, p);
      var l, x :| 0 <= l < |bundles| && |bundles[l].pools| >= 2 && !Fits(bundles, maxPools, l) && x in bundles[l].pools && x.pool == p;
      Apart(bundles, k, l, sp, x);
    }
  }
}
