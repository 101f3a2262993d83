/**
 Inputs of pin-set selection and the readiness of a pool (src/arbitrage/track_selection.rs). All
 quotes of one selection read the same instant.
 */
module TrackPools {
  import opened Wrappers
  import opened Cpmm
  import opened PoolQuotes

  datatype Readiness = Rejected | Warmable | QuoteReady | Executable {
    function Rank(): nat {
      match this
      case Rejected => 0
      case Warmable => 1
      case QuoteReady => 2
      case Executable => 3
    }

    function Max(other: Readiness): Readiness {
      if other.Rank() > Rank() then other else this
    }

    function Min(other: Readiness): Readiness {
      if other.Rank() < Rank() then other else this
    }
  }

  datatype TrackPool = TrackPool(
    poolAddress: string, dex: string, known: bool, quotePool: QuotePoolInput, vault: Option<QuoteVaultInput>,
    bins: Option<DlmmBinArrays>, lastActivityMs: nat)

  datatype TrackMint = TrackMint(mint: string, pools: seq<TrackPool>, signal: Option<(string, string)>, lastActivityMs: nat)

  datatype SelectionConfig = SelectionConfig(maxPools: nat, maxPoolsPerMint: nat, probe: U64, freshness: QuoteFreshnessConfig)

  /** The fixed surroundings of one selection. */
  datatype World = World(env: Environment, config: SelectionConfig, now: nat) {

    predicate Fresh(pool: TrackPool, mintIn: string, mintOut: string, amount: U64) {
      var quote := QuoteExactIn(env, pool.quotePool, pool.vault, pool.bins, NO_ORCA, mintIn, mintOut, amount, now, config.freshness);
      quote.Some? && IsQuoteFresh(env, quote.value, config.freshness, pool.vault, pool.bins, NO_ORCA, now)
    }

    predicate CanFreshBuy(pool: TrackPool) {
      Fresh(pool, NATIVE_SOL_MINT, pool.quotePool.tokenMint, config.probe)
    }

    /** The token amount a probe would buy by the cached reserves; 1 if they are missing. */
    function SellProbe(pool: TrackPool): U64 {
      if pool.vault.None? || pool.vault.value.reserveBase == 0 || pool.vault.value.reserveQuote == 0 then 1
      else
        var out := pool.vault.value.reserveBase * config.probe / (pool.vault.value.reserveQuote + config.probe);
        (if out < 1 then 1 else out) % U64_LIMIT
    }

    predicate CanFreshSell(pool: TrackPool) {
      Fresh(pool, pool.quotePool.tokenMint, NATIVE_SOL_MINT, SellProbe(pool))
    }

    predicate IsWarmable(pool: TrackPool) {
      pool.known && StructurallyCapable(pool) && !CanFreshBuy(pool) && !CanFreshSell(pool)
    }

    function Classify(pool: TrackPool): Readiness {
      if !pool.known || !IsTrackDex(pool.dex) then Rejected
      else if !StructurallyCapable(pool) then Rejected
      else if CanFreshBuy(pool) || CanFreshSell(pool) then QuoteReady
      else if IsWarmable(pool) then Warmable
      else Rejected
    }

    /** Pools named by the mint's trade signal are promoted unless rejected. */
    function Effective(mint: TrackMint, pool: TrackPool): Readiness {
      if Signalled(mint, pool.poolAddress) && Classify(pool).Rank() >= Warmable.Rank() then Executable else Classify(pool)
    }
  }

  predicate Signalled(mint: TrackMint, address: string) {
    mint.signal.Some? && (address == mint.signal.value.0 || address == mint.signal.value.1)
  }

  predicate IsTrackDex(dex: string) {
    dex == "raydium" || dex == "raydium_cpmm" || dex == "orca" || dex == "meteora_dlmm" || dex == "pump_amm"
  }

  predicate StructurallyCapable(pool: TrackPool) {
    && pool.known && IsTrackDex(pool.dex)
    && (if pool.quotePool.dex == "meteora_dlmm" then
          (pool.vault.Some? && pool.vault.value.activeId.Some? && pool.vault.value.binStep.Some?) || pool.bins.Some? || pool.known
        else
          pool.quotePool.dex == "orca" || pool.quotePool.dex == "raydium" || pool.quotePool.dex == "raydium_cpmm"
          || pool.quotePool.dex == "pump_amm")
  }

  /** The quoting half of a pool input is on the same DEX. */
  predicate DexMatches(pool: TrackPool) {
    pool.quotePool.dex == pool.dex
  }

  /** The quoting half of a pool input describes the same pool. */
  predicate Consistent(pool: TrackPool) {
    DexMatches(pool) && pool.quotePool.poolAddress == pool.poolAddress
  }

  /** A pool is rejected exactly if it is unknown or on an unsupported DEX. */
  lemma RejectedIffUnsupported(w: World, mint: TrackMint, pool: TrackPool)
    requires DexMatches(pool)
    ensures w.Effective(mint, pool).Rejected? <==> !(pool.known && IsTrackDex(pool.dex))
  {
    hide World.Fresh;
  }
}
