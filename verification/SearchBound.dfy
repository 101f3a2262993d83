/**
 The pruning bound during a search (src/arbitrage/cycle_finder.rs:206-213, src/arbitrage/pool_ranker.rs:218-241):
 which ratio it consults at every moment of a run, and what a path it cuts must look like.
 */
module SearchBound {
  import opened Types
  import opened PoolGraphObject
  import opened SearchNodes
  import opened PoolRanking
  import opened SearchPaths
  import opened SearchAccounting
  import opened SearchTrace

  // ----- The ratio cache at every moment -----

  ghost predicate Seen(m: Market, u: Pubkey, ratio: real) {
    RatioSeen(m, u, Neighborhood(m.adj, u).Keys, ratio)
  }

  /** Some pool out of `u` is usable. */
  ghost predicate Rankable(m: Market, u: Pubkey) {
    exists x :: Seen(m, u, x)
  }

  /** `x` is the best of what the cache started from and the clamped ratios of the pools out of `u`. */
  ghost predicate IsBestRatio(m: Market, start: RatioCache, u: Pubkey, x: real) {
    var first := if u in start then start[u] else 0.0;
    && x >= first && (forall y :: Seen(m, u, y) ==> y <= x)
    && (x == first || Seen(m, u, x))
  }

  /** Among the first `n` popped paths one ended at `u` and was expanded, so `u` has been ranked. */
  ghost predicate ExpandedBefore(f: Frame, account: Account, n: nat, u: Pubkey) {
    exists j :: 0 <= j < n && j < |account.popped| && ExpandedAt(f, account, j, u)
  }

  ghost predicate ExpandedAt(f: Frame, account: Account, j: nat, u: Pubkey)
    requires j < |account.popped|
  {
    var p := account.popped[j];
    p != [] && p[|p| - 1] == u && Passed(f, account, p)
  }

  /** The one ratio the bound can consult for `u` after `n` pops: the best one once `u` is ranked, before that the start. */
  ghost predicate IsConsulted(f: Frame, start: RatioCache, account: Account, n: nat, u: Pubkey, ratio: real) {
    if ExpandedBefore(f, account, n, u) && Rankable(f.market, u) then IsBestRatio(f.market, start, u, ratio)
    else ratio == (if u in start then start[u] else OPTIMISTIC_RATIO)
  }

  /** Every recorded ratio is the one consulted at its moment. */
  ghost predicate ConsultedExactly(f: Frame, start: RatioCache, account: Account) {
    forall i :: 0 <= i < |account.popped| && account.popped[i] in account.consulted ==> ConsultedAt(f, start, account, i)
  }

  ghost predicate ConsultedAt(f: Frame, start: RatioCache, account: Account, i: nat)
    requires i < |account.popped| && account.popped[i] in account.consulted
  {
    var p := account.popped[i];
    p != [] && IsConsulted(f, start, account, i, p[|p| - 1], account.consulted[p])
  }

  /** The cache itself, after all pops of the account. */
  ghost predicate CacheExact(f: Frame, start: RatioCache, account: Account, cache: RatioCache) {
    forall u :: EntryExact(f, start, account, cache, u)
  }

  ghost predicate EntryExact(f: Frame, start: RatioCache, account: Account, cache: RatioCache, u: Pubkey) {
    if ExpandedBefore(f, account, |account.popped|, u) && Rankable(f.market, u)
    then u in cache && IsBestRatio(f.market, start, u, cache[u])
    else (u in cache <==> u in start) && (u in start ==> cache[u] == start[u])
  }

  lemma StartExact(f: Frame, start: RatioCache)
    ensures CacheExact(f, start, Account([], map[]), start) && ConsultedExactly(f, start, Account([], map[]))
  {
    hide IsBestRatio, Rankable;
    forall u
      ensures EntryExact(f, start, Account([], map[]), start, u)
    {
      assert !ExpandedBefore(f, Account([], map[]), 0, u);
    }
  }

  /** What the ranker answers is what the bound may consult. */
  lemma RankerAnswers(f: Frame, start: RatioCache, account: Account, cache: RatioCache, u: Pubkey)
    requires CacheExact(f, start, account, cache)
    ensures IsConsulted(f, start, account, |account.popped|, u, if u in cache then cache[u] else OPTIMISTIC_RATIO)
  {
    hide ExpandedBefore, Rankable, IsBestRatio;
    assert EntryExact(f, start, account, cache, u);
  }

  lemma SamePassed(f: Frame, account: Account, p: Path, ratio: real, q: Path)
    requires p !in account.consulted && q != p
    ensures Passed(f, account, q) <==> Passed(f, AfterPop(f, account, p, ratio), q)
  {
    hide Cut;
    var account' := AfterPop(f, account, p, ratio);
    assert Consults(account, account');
    if q in account.consulted {
      StillCut(f, account, account', q);
    }
  }

  lemma SameExpandedBefore(f: Frame, account: Account, p: Path, ratio: real, n: nat, u: Pubkey)
    requires p !in account.consulted && p !in account.popped && n <= |account.popped|
    ensures ExpandedBefore(f, account, n, u) <==> ExpandedBefore(f, AfterPop(f, account, p, ratio), n, u)
  {
    hide Passed;
    var account' := AfterPop(f, account, p, ratio);
    forall j | 0 <= j < n
      ensures ExpandedAt(f, account, j, u) <==> ExpandedAt(f, account', j, u)
    {
      assert account'.popped[j] == account.popped[j];
      SamePassed(f, account, p, ratio, account.popped[j]);
    }
  }

  lemma OneMorePop(f: Frame, account: Account, p: Path, ratio: real, u: Pubkey)
    requires p != [] && p !in account.consulted && p !in account.popped
    ensures var account' := AfterPop(f, account, p, ratio);
            ExpandedBefore(f, account', |account'.popped|, u)
            <==> ExpandedBefore(f, account, |account.popped|, u) || (u == p[|p| - 1] && Passed(f, account', p))
  {
    hide Passed;
    var account', n := AfterPop(f, account, p, ratio), |account.popped|;
    SameExpandedBefore(f, account, p, ratio, n, u);
    assert ExpandedAt(f, account', n, u) <==> u == p[|p| - 1] && Passed(f, account', p);
    if j :| 0 <= j < n && ExpandedAt(f, account', j, u) {
      assert ExpandedBefore(f, account', n, u);
    }
  }

  /** Popping a path with the ratio the ranker answers keeps the record exact. */
  lemma StepConsulted(f: Frame, start: RatioCache, account: Account, p: Path, ratio: real)
    requires ConsultedExactly(f, start, account) && p != [] && p !in account.consulted && p !in account.popped
    requires Bounded(f, p) ==> IsConsulted(f, start, account, |account.popped|, p[|p| - 1], ratio)
    ensures ConsultedExactly(f, start, AfterPop(f, account, p, ratio))
  {
    hide ExpandedBefore, IsBestRatio, Rankable, Bounded;
    var account' := AfterPop(f, account, p, ratio);
    forall i | 0 <= i < |account'.popped| && account'.popped[i] in account'.consulted
      ensures ConsultedAt(f, start, account', i)
    {
      var q := account'.popped[i];
      if i < |account.popped| {
        assert q == account.popped[i] && q in account.popped && q in account.consulted;
        assert ConsultedAt(f, start, account, i);
      }
      SameExpandedBefore(f, account, p, ratio, i, q[|q| - 1]);
    }
  }

  /** A path that is not expanded leaves the cache as it is. */
  lemma StepCacheQuiet(f: Frame, start: RatioCache, account: Account, p: Path, ratio: real, cache: RatioCache)
    requires CacheExact(f, start, account, cache) && p != [] && p !in account.consulted && p !in account.popped
    requires !Passed(f, AfterPop(f, account, p, ratio), p)
    ensures CacheExact(f, start, AfterPop(f, account, p, ratio), cache)
  {
    hide ExpandedBefore, IsBestRatio, Rankable, Passed, AfterPop;
    var account' := AfterPop(f, account, p, ratio);
    forall u
      ensures EntryExact(f, start, account', cache, u)
    {
      assert EntryExact(f, start, account, cache, u);
      OneMorePop(f, account, p, ratio, u);
    }
  }

  /** Ranking raises the entry of the expanded path's token to its best ratio, and only that entry. */
  lemma StepCacheRanked(f: Frame, start: RatioCache, account: Account, p: Path, ratio: real, cache: RatioCache, ratios: seq<real>)
    requires CacheExact(f, start, account, cache) && p != [] && p !in account.consulted && p !in account.popped
    requires Passed(f, AfterPop(f, account, p, ratio), p)
    requires RatiosOf(f.market, p[|p| - 1], Neighborhood(f.market.adj, p[|p| - 1]).Keys, ratios)
    ensures CacheExact(f, start, AfterPop(f, account, p, ratio), Raised(cache, p[|p| - 1], ratios))
  {
    hide ExpandedBefore, IsBestRatio, Passed, AfterPop, RatiosOf, Rankable;
    var account', token := AfterPop(f, account, p, ratio), p[|p| - 1];
    forall u
      ensures EntryExact(f, start, account', Raised(cache, token, ratios), u)
    {
      assert EntryExact(f, start, account, cache, u);
      OneMorePop(f, account, p, ratio, u);
      if u == token {
        RaisedEntry(f.market, start, u, cache, ratios, ExpandedBefore(f, account, |account.popped|, u));
      }
    }
  }

  lemma RaisedEntry(m: Market, start: RatioCache, u: Pubkey, cache: RatioCache, ratios: seq<real>, ranked: bool)
    requires RatiosOf(m, u, Neighborhood(m.adj, u).Keys, ratios)
    requires if ranked && Rankable(m, u) then u in cache && IsBestRatio(m, start, u, cache[u])
             else (u in cache <==> u in start) && (u in start ==> cache[u] == start[u])
    ensures var after := Raised(cache, u, ratios);
            if Rankable(m, u) then u in after && IsBestRatio(m, start, u, after[u]) else after == cache
  {
    hide RatioSeen, Neighborhood;
    assert forall x :: x in ratios <==> Seen(m, u, x);
    if ratios == [] {
      assert !Rankable(m, u);
    } else {
      assert Seen(m, u, ratios[0]);
      var before := if u in cache then cache[u] else 0.0;
      var after := MaxWith(before, ratios);
      assert after != before ==> after in ratios;
    }
  }

  // ----- What the bound costs -----

  /** Cutting a path that could still have qualified takes a ratio that does not cover the hops ahead. */
  lemma CutMeansUncovered(f: Frame, account: Account, p: Path, k: nat, best: real)
    requires f.SearchPath(p) && f.Qualifies(p) && 1 <= k < |p| && Cut(f, account, p[..k])
    requires Within(f.HopsOf(p)[k - 1..], best, f.config.maxHops - (k - 1))
    ensures !Covers(account.consulted[p[..k]], best, f.config.maxHops - (k - 1))
  {
    hide Frame.SearchPath, CappedProduct, UpperBound, Within, Market.Ranked, Reached, Covers, Frame.HopsOf;
    var ratio, hops := account.consulted[p[..k]], f.HopsOf(p);
    PrefixPath(f, p, k);
    if Covers(ratio, best, f.config.maxHops - (k - 1)) {
      assert hops[..k - 1] + hops[k - 1..] == hops;
      CoveredCompletion(hops[..k - 1], hops[k - 1..], ratio, best, f.config.maxHops - (k - 1));
      ProfitIsCappedProduct(f.Base(), hops[..k - 1]);
      ProfitIsCappedProduct(f.Base(), hops);
      assert false;
    }
  }
}
