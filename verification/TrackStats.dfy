/**
 Pair completeness of a pin set (src/arbitrage/track_selection.rs:188-220): how many mints have a
 cross-DEX pair among the selected pools, and how many selected pools lack one.
 */
module TrackStats {
  import opened Collections
  import RT = RoundTrip
  import opened TrackPools
  import opened TrackBundles

  /** The DEX of every pool address in the input. */
  type DexMap = map<string, string>

  function MintDexEntries(mint: TrackMint): (r: seq<(string, string)>)
    ensures |r| == |mint.pools|
    ensures forall i :: 0 <= i < |r| ==> r[i] == (mint.pools[i].poolAddress, mint.pools[i].dex)
  {
    seq(|mint.pools|, i requires 0 <= i < |mint.pools| => (mint.pools[i].poolAddress, mint.pools[i].dex))
  }

  function DexEntries(): TrackMint -> seq<(string, string)> {
    (mint: TrackMint) => MintDexEntries(mint)
  }

  function DexesByAddress(mints: seq<TrackMint>): DexMap {
    InsertAll(Collect(mints, DexEntries()))
  }

  /** Two selected pools of the mint are on different DEXes. */
  ghost predicate Complete(selected: seq<SelectedPool>, dexOf: DexMap, mint: string) {
    exists p, q :: p in selected && q in selected && p.mint == mint && q.mint == mint
                && p.pool in dexOf && q.pool in dexOf && dexOf[p.pool] != dexOf[q.pool]
  }

  ghost function CompleteMints(selected: seq<SelectedPool>, dexOf: DexMap): set<string> {
    set p | p in selected && Complete(selected, dexOf, p.mint) :: p.mint
  }

  /** Positions of pools whose mint has no cross-DEX pair in the selection. */
  ghost function Orphans(selected: seq<SelectedPool>, dexOf: DexMap): set<nat> {
    set i: nat | i < |selected| && selected[i].pool in dexOf && !Complete(selected, dexOf, selected[i].mint)
  }

  // ----- Grouping by mint -----

  /** The DEXes of the mint's selected pools, in selection order. */
  function DexList(selected: seq<SelectedPool>, dexOf: DexMap, mint: string): seq<string> {
    if selected == [] then []
    else
      var last := selected[|selected| - 1];
      DexList(selected[..|selected| - 1], dexOf, mint)
      + if last.mint == mint && last.pool in dexOf then [dexOf[last.pool]] else []
  }

  function Positions(selected: seq<SelectedPool>, dexOf: DexMap, mint: string): set<nat> {
    set i: nat | i < |selected| && selected[i].pool in dexOf && selected[i].mint == mint
  }

  lemma {:induction false} DexListCounts(selected: seq<SelectedPool>, dexOf: DexMap, mint: string)
    ensures |DexList(selected, dexOf, mint)| == |Positions(selected, dexOf, mint)|
  {
    if selected != [] {
      var init, n := selected[..|selected| - 1], |selected| - 1;
      DexListCounts(init, dexOf, mint);
      if selected[n].mint == mint && selected[n].pool in dexOf {
        assert Positions(selected, dexOf, mint) == Positions(init, dexOf, mint) + {n};
      } else {
        assert Positions(selected, dexOf, mint) == Positions(init, dexOf, mint);
      }
    }
  }

  lemma {:induction false} DexListMembers(selected: seq<SelectedPool>, dexOf: DexMap, mint: string)
    ensures forall d :: d in DexList(selected, dexOf, mint)
              <==> exists p :: p in selected && p.mint == mint && p.pool in dexOf && dexOf[p.pool] == d
  {
    if selected != [] {
      var init, last := selected[..|selected| - 1], selected[|selected| - 1];
      DexListMembers(init, dexOf, mint);
      assert selected == init + [last];
    }
  }

  function Distinct(dexes: seq<string>): set<string> {
    set d | d in dexes
  }

  /** The test the code makes on a group: two entries and two distinct DEXes. */
  lemma CompleteIffTwoDexes(selected: seq<SelectedPool>, dexOf: DexMap, mint: string)
    ensures var dexes := DexList(selected, dexOf, mint);
            Complete(selected, dexOf, mint) <==> |dexes| >= 2 && |Distinct(dexes)| >= 2
  {
    hide DexList;
    var dexes := DexList(selected, dexOf, mint);
    DexListMembers(selected, dexOf, mint);
    if |Distinct(dexes)| >= 2 {
      var x, y := RT.TwoMembers(Distinct(dexes));
      assert x in dexes && y in dexes;
    }
    if p, q :| p in selected && q in selected && p.mint == mint && q.mint == mint
               && p.pool in dexOf && q.pool in dexOf && dexOf[p.pool] != dexOf[q.pool] {
      var x, y := dexOf[p.pool], dexOf[q.pool];
      assert x in dexes && y in dexes && x in Distinct(dexes) && y in Distinct(dexes);
      TwoInside(dexes, x, y);
    }
  }

  lemma TwoInside(s: seq<string>, x: string, y: string)
    requires x in s && y in s && x != y
    ensures |s| >= 2 && |Distinct(s)| >= 2
  {
    var i :| 0 <= i < |s| && s[i] == x;
    var j :| 0 <= j < |s| && s[j] == y;
    if |Distinct(s)| < 2 {
      RT.SmallSet(Distinct(s), x, y);
    }
  }

  // ----- The loops -----

  ghost predicate Grouped(byMint: map<string, seq<string>>, selected: seq<SelectedPool>, dexOf: DexMap) {
    && (forall m :: m in byMint ==> byMint[m] == DexList(selected, dexOf, m))
    && (forall m :: m in byMint <==> DexList(selected, dexOf, m) != [])
  }

  lemma GroupStep(byMint: map<string, seq<string>>, selected: seq<SelectedPool>, dexOf: DexMap, k: nat)
    requires k < |selected| && Grouped(byMint, selected[..k], dexOf)
    ensures var p := selected[k];
            var group := if p.mint in byMint then byMint[p.mint] else [];
            Grouped(if p.pool in dexOf then byMint[p.mint := group + [dexOf[p.pool]]] else byMint, selected[..k + 1], dexOf)
  {
    assert selected[..k + 1][..k] == selected[..k];
    forall m
      ensures DexList(selected[..k + 1], dexOf, m)
              == DexList(selected[..k], dexOf, m)
                 + if selected[k].mint == m && selected[k].pool in dexOf then [dexOf[selected[k].pool]] else []
    {
    }
    hide DexList;
  }

  ghost function CompleteAmong(selected: seq<SelectedPool>, dexOf: DexMap, done: set<string>): set<string> {
    set m | m in done && Complete(selected, dexOf, m)
  }

  ghost function OrphansAmong(selected: seq<SelectedPool>, dexOf: DexMap, done: set<string>): set<nat> {
    set i: nat | i < |selected| && selected[i].pool in dexOf && selected[i].mint in done
                 && !Complete(selected, dexOf, selected[i].mint)
  }

  lemma TallyStep(selected: seq<SelectedPool>, dexOf: DexMap, done: set<string>, m: string)
    requires m !in done
    ensures var complete := Complete(selected, dexOf, m);
            && |CompleteAmong(selected, dexOf, done + {m})| == |CompleteAmong(selected, dexOf, done)| + (if complete then 1 else 0)
            && |OrphansAmong(selected, dexOf, done + {m})|
               == |OrphansAmong(selected, dexOf, done)| + (if complete then 0 else |DexList(selected, dexOf, m)|)
  {
    hide CompleteAmong, OrphansAmong, Complete, DexList, Positions;
    DexListCounts(selected, dexOf, m);
    CompleteGrow(selected, dexOf, done, m);
    OrphansGrow(selected, dexOf, done, m);
  }

  lemma CompleteGrow(selected: seq<SelectedPool>, dexOf: DexMap, done: set<string>, m: string)
    ensures CompleteAmong(selected, dexOf, done + {m})
            == CompleteAmong(selected, dexOf, done) + if Complete(selected, dexOf, m) then {m} else {}
    ensures m in CompleteAmong(selected, dexOf, done) ==> m in done
  {
    hide Complete;
  }

  lemma OrphansGrow(selected: seq<SelectedPool>, dexOf: DexMap, done: set<string>, m: string)
    requires m !in done
    ensures var before, here := OrphansAmong(selected, dexOf, done), Positions(selected, dexOf, m);
            && OrphansAmong(selected, dexOf, done + {m}) == before + (if Complete(selected, dexOf, m) then {} else here)
            && before !! here
  {
    hide Complete;
    var before, here := OrphansAmong(selected, dexOf, done), Positions(selected, dexOf, m);
    var after := OrphansAmong(selected, dexOf, done + {m});
    forall i: nat
      ensures i in after <==> i in before || (i in here && !Complete(selected, dexOf, m))
    {
    }
  }

  lemma TallyEnds(selected: seq<SelectedPool>, dexOf: DexMap, byMint: map<string, seq<string>>)
    requires Grouped(byMint, selected, dexOf)
    ensures CompleteAmong(selected, dexOf, byMint.Keys) == CompleteMints(selected, dexOf)
    ensures OrphansAmong(selected, dexOf, byMint.Keys) == Orphans(selected, dexOf)
  {
    hide DexList;
    forall p | p in selected && p.pool in dexOf
      ensures p.mint in byMint
    {
      DexListMembers(selected, dexOf, p.mint);
      assert dexOf[p.pool] in DexList(selected, dexOf, p.mint);
    }
  }

  /** Main result: the two published numbers count what their names say, whatever order the groups are visited in. */
  method ComputePairCompletenessStats(selected: seq<SelectedPool>, mints: seq<TrackMint>) returns (complete: nat, orphans: nat)
    ensures complete == |CompleteMints(selected, DexesByAddress(mints))|
    ensures orphans == |Orphans(selected, DexesByAddress(mints))|
  {
    hide CompleteMints, Orphans, CompleteAmong, OrphansAmong, Complete, DexesByAddress;
    var dexOf := DexesByAddress(mints);
    var byMint: map<string, seq<string>> := GroupByMint(selected, dexOf);
    complete, orphans := 0, 0;
    var left := byMint.Keys;
    TallyStart(selected, dexOf);
    ghost var done: set<string> := {};
    while left != {}
      invariant left !! done && left + done == byMint.Keys
      invariant complete == |CompleteAmong(selected, dexOf, done)|
      invariant orphans == |OrphansAmong(selected, dexOf, done)|
    {
      var m :| m in left;
      CompleteIffTwoDexes(selected, dexOf, m);
      TallyStep(selected, dexOf, done, m);
      var dexes := byMint[m];
      if |dexes| >= 2 && |Distinct(dexes)| >= 2 {
        complete := complete + 1;
      } else {
        orphans := orphans + |dexes|;
      }
      left := left - {m};
      done := done + {m};
    }
    assert done == byMint.Keys;
    TallyEnds(selected, dexOf, byMint);
  }

  lemma TallyStart(selected: seq<SelectedPool>, dexOf: DexMap)
    ensures CompleteAmong(selected, dexOf, {}) == {} && OrphansAmong(selected, dexOf, {}) == {}
  {
  }

  method GroupByMint(selected: seq<SelectedPool>, dexOf: DexMap) returns (byMint: map<string, seq<string>>)
    ensures Grouped(byMint, selected, dexOf)
  {
    byMint := map[];
    for k := 0 to |selected|
      invariant Grouped(byMint, selected[..k], dexOf)
    {
      GroupStep(byMint, selected, dexOf, k);
      var entry := selected[k];
      if entry.pool in dexOf {
        var group := if entry.mint in byMint then byMint[entry.mint] else [];
        byMint := byMint[entry.mint := group + [dexOf[entry.pool]]];
      }
    }
    assert selected[..|selected|] == selected;
  }
}
