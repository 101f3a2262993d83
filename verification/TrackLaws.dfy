/**
 Readiness tiers and the order of bundles (src/arbitrage/track_selection.rs:117-152, 242-247, 535-661), in terms of
 pool state, quotes and names alone.
 */
module TrackLaws {
  import opened Wrappers
  import opened Sorting
  import opened Collections
  import opened Cpmm
  import opened PoolQuotes
  import opened TrackPools
  import opened TrackBundles
  import opened TrackSelection
  import opened PinSet

  // ----- Tiers -----

  ghost predicate TrackDex(dex: string) {
    dex == "raydium" || dex == "raydium_cpmm" || dex == "orca" || dex == "meteora_dlmm" || dex == "pump_amm"
  }

  /** Known, and on a supported DEX by both of its labels. */
  ghost predicate Supported(pool: TrackPool) {
    pool.known && TrackDex(pool.dex) && TrackDex(pool.quotePool.dex)
  }

  /** The pool quotes the probe for its token. */
  ghost predicate Buyable(w: World, pool: TrackPool) {
    QuoteExactIn(w.env, pool.quotePool, pool.vault, pool.bins, OrcaExecCtx(None, None),
                 "So11111111111111111111111111111111111111112", pool.quotePool.tokenMint, w.config.probe, w.now, w.config.freshness).Some?
  }

  /** What the probe would buy by the cached reserves, at least one token unit. */
  ghost function ProbeTokens(w: World, pool: TrackPool): (n: nat)
    ensures n < U64_LIMIT
  {
    if pool.vault.None? || pool.vault.value.reserveBase == 0 || pool.vault.value.reserveQuote == 0 then 1
    else
      var share := Share(pool.vault.value.reserveBase, pool.vault.value.reserveQuote, w.config.probe);
      if share == 0 then 1 else share
  }

  /** The base side's share of a swap without fee, rounded down. */
  ghost function Share(base: nat, quote: nat, probe: nat): (n: nat)
    requires quote > 0
    ensures n <= base
  {
    ShareBelow(base, quote, probe);
    base * probe / (quote + probe)
  }

  lemma ShareBelow(base: nat, quote: nat, probe: nat)
    requires quote > 0
    ensures base * probe / (quote + probe) <= base
  {
    var d := quote + probe;
    MulBelow(base, probe, base, d);
    assert (base + 1) * d == base * d + d;
    QuotientBelow(base * probe, d, base + 1);
  }

  /** The pool quotes that many tokens for SOL. */
  ghost predicate Sellable(w: World, pool: TrackPool) {
    QuoteExactIn(w.env, pool.quotePool, pool.vault, pool.bins, OrcaExecCtx(None, None),
                 pool.quotePool.tokenMint, "So11111111111111111111111111111111111111112", ProbeTokens(w, pool), w.now, w.config.freshness).Some?
  }

  /** The mint's trade signal names the pool. */
  ghost predicate Named(mint: TrackMint, pool: TrackPool) {
    mint.signal.Some? && (mint.signal.value.0 == pool.poolAddress || mint.signal.value.1 == pool.poolAddress)
  }

  lemma BuyableMeans(w: World, pool: TrackPool)
    ensures w.CanFreshBuy(pool) <==> Buyable(w, pool)
  {
    hide QuoteExactIn, IsQuoteFresh;
    if Buyable(w, pool) {
      EarlierRecheckAccepts(w.env, pool.quotePool, pool.vault, pool.bins, NO_ORCA, NATIVE_SOL_MINT, pool.quotePool.tokenMint,
                            w.config.probe, w.now, w.config.freshness, w.now);
    }
  }

  lemma ProbeMeans(w: World, pool: TrackPool)
    ensures w.SellProbe(pool) == ProbeTokens(w, pool)
  {
    if pool.vault.Some? && pool.vault.value.reserveBase > 0 && pool.vault.value.reserveQuote > 0 {
      ShareBelow(pool.vault.value.reserveBase, pool.vault.value.reserveQuote, w.config.probe);
    }
  }

  lemma SellableMeans(w: World, pool: TrackPool)
    ensures w.CanFreshSell(pool) <==> Sellable(w, pool)
  {
    hide QuoteExactIn, IsQuoteFresh, World.SellProbe, ProbeTokens;
    ProbeMeans(w, pool);
    if Sellable(w, pool) {
      EarlierRecheckAccepts(w.env, pool.quotePool, pool.vault, pool.bins, NO_ORCA, pool.quotePool.tokenMint, NATIVE_SOL_MINT,
                            w.SellProbe(pool), w.now, w.config.freshness, w.now);
    }
  }

  /** Main result: exactly when a pool is in which tier. */
  lemma TierLaw(w: World, mint: TrackMint, pool: TrackPool)
    ensures var tier, quotable := w.Effective(mint, pool), Buyable(w, pool) || Sellable(w, pool);
            && (tier == Executable <==> Supported(pool) && Named(mint, pool))
            && (tier == QuoteReady <==> Supported(pool) && !Named(mint, pool) && quotable)
            && (tier == Warmable <==> Supported(pool) && !Named(mint, pool) && !quotable)
            && (tier == Rejected <==> !Supported(pool))
  {
    hide World.CanFreshBuy, World.CanFreshSell, Buyable, Sellable;
    BuyableMeans(w, pool);
    SellableMeans(w, pool);
  }

  // ----- Order -----

  /** `a` is a strictly better tier than `b`. */
  ghost predicate TierAbove(a: Readiness, b: Readiness) {
    match a
    case Executable => b != Executable
    case QuoteReady => b == Warmable || b == Rejected
    case Warmable => b == Rejected
    case Rejected => false
  }

  lemma RankMeans(a: Readiness, b: Readiness)
    ensures a.Rank() > b.Rank() <==> TierAbove(a, b)
    ensures a.Rank() == b.Rank() <==> a == b
  {
  }

  /** The order of strings: a proper prefix first, else by the first difference. */
  lemma {:induction false} LexMeans(a: string, b: string)
    ensures LexLe(a, b) <==> a <= b || exists k: nat :: k < |a| && k < |b| && a[..k] == b[..k] && a[k] < b[k]
  {
    if a == [] {
    } else if b == [] {
    } else if a[0] != b[0] {
      assert a[..0] == b[..0];
      forall k: nat | 0 < k < |a| && k < |b|
        ensures a[..k] != b[..k]
      {
        assert a[..k][0] != b[..k][0];
      }
    } else {
      LexMeans(a[1..], b[1..]);
      LexTail(a, b);
    }
  }

  lemma LexTail(a: string, b: string)
    requires a != [] && b != [] && a[0] == b[0]
    ensures (a[1..] <= b[1..]) <==> a <= b
    ensures (exists k: nat :: k < |a[1..]| && k < |b[1..]| && a[1..][..k] == b[1..][..k] && a[1..][k] < b[1..][k])
            <==> exists k: nat :: k < |a| && k < |b| && a[..k] == b[..k] && a[k] < b[k]
  {
    assert a == [a[0]] + a[1..] && b == [b[0]] + b[1..];
    if k: nat :| k < |a[1..]| && k < |b[1..]| && a[1..][..k] == b[1..][..k] && a[1..][k] < b[1..][k] {
      assert a[..k + 1] == [a[0]] + a[1..][..k] && b[..k + 1] == [b[0]] + b[1..][..k];
      assert a[k + 1] < b[k + 1];
    }
    if k: nat :| k < |a| && k < |b| && a[..k] == b[..k] && a[k] < b[k] {
      assert a[1..][..k - 1] == a[..k][1..] && b[1..][..k - 1] == b[..k][1..];
      assert a[1..][k - 1] < b[1..][k - 1];
    }
  }

  /** `a` may stand before `b`: better tier, else more recent, else the name not later in the alphabet. */
  ghost predicate NotBehind(a: MintBundle, b: MintBundle) {
    || TierAbove(a.priority, b.priority)
    || (a.priority == b.priority && a.lastActivityMs > b.lastActivityMs)
    || (a.priority == b.priority && a.lastActivityMs == b.lastActivityMs && LexLe(a.mint, b.mint))
  }

  lemma BundleOrderMeans(a: MintBundle, b: MintBundle)
    ensures BundleLe(a, b) <==> NotBehind(a, b)
  {
    RankMeans(a.priority, b.priority);
    RankMeans(b.priority, a.priority);
  }

  /** The budget is offered in that order. */
  lemma RankedOrderLaw(w: World, mints: seq<TrackMint>)
    ensures var bundles := RankedBundles(w, mints);
            forall i, j :: 0 <= i < j < |bundles| ==> NotBehind(bundles[i], bundles[j])
  {
    hide BundleLe, NotBehind, RankedBundles;
    RankedSorted(w, mints);
    forall a, b
      ensures BundleLe(a, b) <==> NotBehind(a, b)
    {
      BundleOrderMeans(a, b);
    }
  }

  /** Main result: a pinned bundle at least as large as a displaced one is of a better tier, or more recent, or earlier by name. */
  lemma PinnedRanksAhead(w: World, mints: seq<TrackMint>, m: TrackMint, n: TrackMint)
    requires WellFormed(mints) && m in mints && n in mints && Offer(w, mints, m).Some? && Offer(w, mints, n).Some?
    requires var r, b, c := SelectionOf(w, mints), Offer(w, mints, m).value, Offer(w, mints, n).value;
             DisplacedWhole(r, b) && PinnedWhole(r, c) && |c.pools| >= |b.pools|
    ensures NotBehind(Offer(w, mints, n).value, Offer(w, mints, m).value)
  {
    hide Offer, WellFormed, SelectionOf, BundleLe, DisplacedWhole, PinnedWhole, NotBehind;
    BundleOrderMeans(Offer(w, mints, n).value, Offer(w, mints, m).value);
    if !BundleLe(Offer(w, mints, n).value, Offer(w, mints, m).value) {
      OvertakerIsSmaller(w, mints, m, n);
    }
  }
}
