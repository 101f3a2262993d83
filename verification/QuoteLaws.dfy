/**
 What the quoter (src/arbitrage/pool_quote.rs:755-1013, 1085-1227, 1715-1738, 2098-2200) pays, in terms of
 reserves, walkers and amounts: exactly when a quote exists on each kind of pool, and its exact output.
 */
module QuoteLaws {
  import opened Wrappers
  import opened Cpmm
  import opened PoolQuotes

  // ----- Prices -----

  /** Powers of ten, characterised. */
  lemma {:induction false} TenPowers(m: nat, n: nat)
    ensures Pow10(0) == 1.0 && Pow10(1) == 10.0 && Pow10(m + n) == Pow10(m) * Pow10(n)
  {
    if m > 0 {
      TenPowers(m - 1, n);
    }
  }

  /** SOL per whole token, from lamports and raw token units. */
  function SolPerToken(lamports: nat, units: nat, decimals: nat): real
    requires units > 0
  {
    (lamports as real / 1_000_000_000.0) / (units as real / Pow10(decimals))
  }

  /** A price is acceptable if positive, and for the two stablecoins between a ten-thousandth and one SOL. */
  ghost predicate Acceptable(tokenMint: string, price: real) {
    && price > 0.0
    && (tokenMint == "EPjFWdd5AufqSSqeM2qN1xzybapC8G4wEGGkZwyTDt1v" ==> 0.0001 <= price <= 1.0)
    && (tokenMint == "Es9vMFrzaCERmJfrF4H2FYD4KCoNkY11McCe8BenwNYB" ==> 0.0001 <= price <= 1.0)
  }

  /** Both reserves are there and imply an acceptable price. */
  ghost predicate ReservesAcceptable(pool: QuotePoolInput, vault: QuoteVaultInput) {
    vault.reserveBase > 0 && vault.reserveQuote > 0
    && Acceptable(pool.tokenMint, SolPerToken(vault.reserveQuote, vault.reserveBase, pool.tokenDecimals))
  }

  lemma ReservesMean(pool: QuotePoolInput, vault: QuoteVaultInput)
    ensures ReservesPlausible(vault, pool) <==> ReservesAcceptable(pool, vault)
  {
  }

  // ----- The three kinds of pool -----

  ghost predicate ConstantProduct(dex: string) {
    dex == "pump_amm" || dex == "raydium" || dex == "raydium_cpmm" || dex == "meteora_cpmm"
  }

  /** SOL goes in and the pool's token comes out, or the other way round. */
  ghost predicate Buys(pool: QuotePoolInput, mintIn: string, mintOut: string) {
    mintIn == "So11111111111111111111111111111111111111112" && mintOut == pool.tokenMint
  }

  ghost predicate Sells(pool: QuotePoolInput, mintIn: string, mintOut: string) {
    mintIn == pool.tokenMint && mintOut == "So11111111111111111111111111111111111111112"
  }

  /** The state is no older than the limit. */
  ghost predicate Current(vault: QuoteVaultInput, now: nat, freshness: QuoteFreshnessConfig) {
    now <= vault.updatedAt + freshness.stateTtlMs
  }

  /** The input after the fee, rounded down. */
  ghost function Net(amountIn: nat, fee: FeeBps): nat {
    amountIn * (10_000 - fee) / 10_000
  }

  /** Everything in a quote but its output. */
  ghost predicate Header(env: Environment, pool: QuotePoolInput, vault: QuoteVaultInput, bins: Option<DlmmBinArrays>,
                         orca: OrcaExecCtx, buys: bool, amountIn: U64, q: PoolQuote)
  {
    && q.poolAddress == pool.poolAddress && q.dex == pool.dex && q.kind == ExecutableMarginal
    && q.side == (if buys then Buy else Sell) && q.asOfSlot == vault.updateSlot && q.asOfTs == vault.updatedAt
    && q.stateFingerprint == env.fingerprint(vault, bins, orca) && q.amountIn == amountIn
  }

  lemma CpmmOutLaw(env: Environment, pool: QuotePoolInput, vault: QuoteVaultInput, side: QuoteSide, amountIn: U64)
    requires ConstantProduct(pool.dex)
    ensures var fee := if pool.dex == "pump_amm" then env.pumpFee(pool.tokenMint, vault.reserveBase, vault.reserveQuote) else Some(25);
            var out := CpmmOut(env, pool, vault, side, amountIn);
            && (out.Some? <==> ReservesAcceptable(pool, vault) && fee.Some? && Net(amountIn, fee.value) > 0)
            && (out.Some? ==>
                  var x := Net(amountIn, fee.value);
                  out.value == if side.Buy? then vault.reserveBase * x / (vault.reserveQuote + x)
                               else vault.reserveQuote * x / (vault.reserveBase + x))
  {
    hide ReservesPlausible, ReservesAcceptable, CpmmAmountOut;
    ReservesMean(pool, vault);
    PositiveReserves(pool, vault);
    var fee := CpmmFee(env, pool, vault);
    if fee.Some? {
      ExactArithmetic(vault.reserveQuote, vault.reserveBase, amountIn, fee.value);
      ExactArithmetic(vault.reserveBase, vault.reserveQuote, amountIn, fee.value);
    }
  }

  lemma PositiveReserves(pool: QuotePoolInput, vault: QuoteVaultInput)
    ensures ReservesPlausible(vault, pool) ==> vault.reserveBase > 0 && vault.reserveQuote > 0
  {
  }

  /** The part of a quote before the pool is looked at. */
  lemma QuoteFrame(env: Environment, pool: QuotePoolInput, vault: Option<QuoteVaultInput>, bins: Option<DlmmBinArrays>,
                   orca: OrcaExecCtx, mintIn: string, mintOut: string, amountIn: U64, now: nat, freshness: QuoteFreshnessConfig)
    requires pool.tokenMint != NATIVE_SOL_MINT
    ensures var q := QuoteExactIn(env, pool, vault, bins, orca, mintIn, mintOut, amountIn, now, freshness);
            var buys, sells := Buys(pool, mintIn, mintOut), Sells(pool, mintIn, mintOut);
            var ready := amountIn > 0 && vault.Some? && (buys || sells) && Current(vault.value, now, freshness);
            && !(buys && sells)
            && (q.Some? ==> ready)
            && (ready ==>
                  var side := if buys then Buy else Sell;
                  var out := if pool.dex == "meteora_dlmm" then DlmmOut(env, pool, vault.value, bins, side, amountIn)
                             else if pool.dex == "orca" then OrcaOut(env, pool, orca, side, amountIn)
                             else CpmmOut(env, pool, vault.value, side, amountIn);
                  && (q.Some? <==> out.Some?)
                  && (q.Some? ==> q.value.amountOut == out.value && Header(env, pool, vault.value, bins, orca, buys, amountIn, q.value)))
  {
    hide DlmmOut, OrcaOut, CpmmOut;
  }

  /**
   Main result: a constant-product pool quotes exactly if the amount, direction, vault, age, reserves and fee
   allow it, and pays the exact rounded-down share of the other reserve: a buy out of the base reserve, a
   sale out of the quote reserve.
   */
  lemma ConstantProductLaw(env: Environment, pool: QuotePoolInput, vault: Option<QuoteVaultInput>, bins: Option<DlmmBinArrays>,
                           orca: OrcaExecCtx, mintIn: string, mintOut: string, amountIn: U64, now: nat,
                           freshness: QuoteFreshnessConfig)
    requires ConstantProduct(pool.dex) && pool.tokenMint != NATIVE_SOL_MINT
    ensures var q := QuoteExactIn(env, pool, vault, bins, orca, mintIn, mintOut, amountIn, now, freshness);
            var buys, sells := Buys(pool, mintIn, mintOut), Sells(pool, mintIn, mintOut);
            && (q.Some? <==>
                  && vault.Some? && (buys || sells) && Current(vault.value, now, freshness) && ReservesAcceptable(pool, vault.value)
                  && var fee := if pool.dex == "pump_amm"
                                then env.pumpFee(pool.tokenMint, vault.value.reserveBase, vault.value.reserveQuote) else Some(25);
                  fee.Some? && Net(amountIn, fee.value) > 0)
            && (q.Some? ==>
                  var fee := if pool.dex == "pump_amm"
                             then env.pumpFee(pool.tokenMint, vault.value.reserveBase, vault.value.reserveQuote) else Some(25);
                  var x := Net(amountIn, fee.value);
                  && Header(env, pool, vault.value, bins, orca, buys, amountIn, q.value)
                  && q.value.amountOut == if buys then vault.value.reserveBase * x / (vault.value.reserveQuote + x)
                                          else vault.value.reserveQuote * x / (vault.value.reserveBase + x))
  {
    hide QuoteExactIn, ReservesAcceptable, CpmmOut, Header, Current;
    QuoteFrame(env, pool, vault, bins, orca, mintIn, mintOut, amountIn, now, freshness);
    if vault.Some? {
      CpmmOutLaw(env, pool, vault.value, if Buys(pool, mintIn, mintOut) then Buy else Sell, amountIn);
    }
  }

  // ----- Bins -----

  /** The price is within a factor of a hundred of the reference, if there is one. */
  ghost predicate Near(price: real, reference: Option<real>) {
    reference.Some? && reference.value > 0.0 ==> price > 0.0 && price <= 100.0 * reference.value && reference.value <= 100.0 * price
  }

  /** Plausible reserves give the reference price; without them an acceptable price of past trades does. */
  ghost function Reference(pool: QuotePoolInput, vault: QuoteVaultInput): Option<real> {
    if ReservesAcceptable(pool, vault) then Some(SolPerToken(vault.reserveQuote, vault.reserveBase, pool.tokenDecimals))
    else
      var traded :=
        if pool.tradePriceBuy.Some? && pool.tradePriceSell.Some? then
          if pool.tradePriceBuy.value > 0.0 && pool.tradePriceSell.value > 0.0
          then Some((pool.tradePriceBuy.value + pool.tradePriceSell.value) / 2.0) else None
        else if pool.tradePriceBuy.Some? then pool.tradePriceBuy
        else pool.tradePriceSell;
      if traded.Some? && Acceptable(pool.tokenMint, traded.value) then traded else None
  }

  /** The two amounts of a trade imply an acceptable price. */
  ghost predicate FairTrade(pool: QuotePoolInput, buys: bool, amountIn: nat, amountOut: nat) {
    amountIn > 0 && amountOut > 0
    && Acceptable(pool.tokenMint, SolPerToken(if buys then amountIn else amountOut, if buys then amountOut else amountIn, pool.tokenDecimals))
  }

  /** SOL is the X side of the pool. */
  ghost predicate SolFirst(vault: QuoteVaultInput) {
    if vault.dlmmTokenXMint.Some? then vault.dlmmTokenXMint == Some("So11111111111111111111111111111111111111112") else vault.dlmmSolIsX
  }

  /** Some bin of the arrays, numbered as a 32-bit integer, is the active one. */
  ghost predicate HasActiveBin(activeId: int, bins: DlmmBinArrays) {
    exists k, i :: k in bins && 0 <= i < |bins[k]| && InRange(k, bins[k][i].offset, activeId)
  }

  ghost predicate InRange(index: int, offset: nat, id: int) {
    -0x8000_0000 <= id < 0x8000_0000 && exists wraps: int :: index * 70 + offset == id + wraps * 0x1_0000_0000
  }

  lemma WrapMeans(x: int, id: int)
    ensures AsI32(x) == id <==> -0x8000_0000 <= id < 0x8000_0000 && exists wraps: int :: x == id + wraps * 0x1_0000_0000
  {
    var m := 0x1_0000_0000;
    var wraps := (x + 0x8000_0000) / m;
    assert x + 0x8000_0000 == wraps * m + (x + 0x8000_0000) % m;
    assert x == AsI32(x) + wraps * m;
    if w: int :| -0x8000_0000 <= id < 0x8000_0000 && x == id + w * m {
      assert (w - wraps) * m == AsI32(x) - id;
      assert w == wraps;
    }
  }

  lemma ActiveMeans(activeId: int, bins: DlmmBinArrays)
    ensures ActiveBinPresent(activeId, bins) <==> HasActiveBin(activeId, bins)
  {
    hide AsI32, InRange;
    forall k: int, offset: nat
      ensures AsI32(k * 70 + offset) == activeId <==> InRange(k, offset, activeId)
    {
      BinMeans(k, offset, activeId);
    }
  }

  lemma BinMeans(k: int, offset: nat, id: int)
    ensures AsI32(k * 70 + offset) == id <==> InRange(k, offset, id)
  {
    hide AsI32;
    WrapMeans(k * 70 + offset, id);
  }

  lemma NearMeans(price: real, reserveMid: Option<real>, tradeMid: Option<real>)
    ensures MarginalPlausible(price, reserveMid, tradeMid) <==> Near(price, if reserveMid.Some? then reserveMid else tradeMid)
  {
    var reference := if reserveMid.Some? then reserveMid else tradeMid;
    if reference.Some? && reference.value > 0.0 && price > 0.0 {
      RatioAtMost(price, reference.value);
      RatioAtMost(reference.value, price);
    }
  }

  lemma RatioAtMost(x: real, y: real)
    requires x > 0.0 && y > 0.0
    ensures x / y <= 100.0 <==> x <= 100.0 * y
  {
    var q := x / y;
    assert q * y == x;
    if q <= 100.0 {
      assert (100.0 - q) * y >= 0.0;
    } else {
      assert (q - 100.0) * y > 0.0;
    }
  }

  lemma DlmmOutLaw(env: Environment, pool: QuotePoolInput, vault: QuoteVaultInput, bins: Option<DlmmBinArrays>,
                   side: QuoteSide, amountIn: U64)
    requires amountIn > 0
    ensures var out := DlmmOut(env, pool, vault, bins, side, amountIn);
            && (out.Some? ==> vault.activeId.Some? && vault.binStep.Some? && vault.binStep.value > 0 && bins.Some?
                              && HasActiveBin(vault.activeId.value, bins.value))
            && (vault.activeId.Some? && vault.binStep.Some? && vault.binStep.value > 0 && bins.Some?
                && HasActiveBin(vault.activeId.value, bins.value) ==>
                  var walked := env.binWalk(vault.activeId.value, vault.binStep.value, bins.value, side.Buy? == SolFirst(vault), amountIn);
                  && (out.Some? <==>
                        && walked.Some? && FairTrade(pool, side.Buy?, amountIn, walked.value)
                        && Near(SolPerToken(if side.Buy? then amountIn else walked.value,
                                            if side.Buy? then walked.value else amountIn, pool.tokenDecimals), Reference(pool, vault)))
                  && (out.Some? ==> out == walked))
  {
    hide ActiveBinPresent, HasActiveBin, ReservesPlausible, ReservesAcceptable, MarginalPlausible, Near, SolPerToken;
    if vault.activeId.Some? && bins.Some? {
      ActiveMeans(vault.activeId.value, bins.value);
      BinsNotEmpty(vault.activeId.value, bins.value);
    }
    ReservesMean(pool, vault);
    ReferenceMeans(pool, vault);
    if vault.activeId.Some? && vault.binStep.Some? && bins.Some? {
      var walked := env.binWalk(vault.activeId.value, vault.binStep.value, bins.value, side.Buy? == SolFirst(vault), amountIn);
      if walked.Some? && walked.value > 0 {
        ImpliedMeans(side, amountIn, walked.value, pool.tokenDecimals);
        NearMeans(ImpliedPrice(side, amountIn, walked.value, pool.tokenDecimals), ReserveRef(pool, vault), TradeRef(pool));
      }
    }
  }

  lemma BinsNotEmpty(activeId: int, bins: DlmmBinArrays)
    ensures ActiveBinPresent(activeId, bins) ==> bins != map[]
  {
  }

  lemma ImpliedMeans(side: QuoteSide, amountIn: nat, amountOut: nat, decimals: nat)
    requires amountIn > 0 && amountOut > 0
    ensures ImpliedPrice(side, amountIn, amountOut, decimals)
            == SolPerToken(if side.Buy? then amountIn else amountOut, if side.Buy? then amountOut else amountIn, decimals)
  {
  }

  ghost function ReserveRef(pool: QuotePoolInput, vault: QuoteVaultInput): Option<real> {
    if ReservesPlausible(vault, pool) then ReserveMid(vault.reserveBase, vault.reserveQuote, pool.tokenDecimals) else None
  }

  ghost function TradeRef(pool: QuotePoolInput): Option<real> {
    if TradeMid(pool).Some? && PlausiblePrice(pool.tokenMint, TradeMid(pool).value) then TradeMid(pool) else None
  }

  lemma ReferenceMeans(pool: QuotePoolInput, vault: QuoteVaultInput)
    ensures Reference(pool, vault) == if ReserveRef(pool, vault).Some? then ReserveRef(pool, vault) else TradeRef(pool)
  {
    hide ReservesAcceptable, ReservesPlausible;
    ReservesMean(pool, vault);
    PositiveReserves(pool, vault);
  }

  /**
   Main result: a bin pool quotes exactly if its parameters, active bin, walk and prices allow it; it pays what
   the walk pays, from X to Y exactly when SOL goes in and is X or comes out and is Y.
   */
  lemma BinPoolLaw(env: Environment, pool: QuotePoolInput, vault: Option<QuoteVaultInput>, bins: Option<DlmmBinArrays>,
                   orca: OrcaExecCtx, mintIn: string, mintOut: string, amountIn: U64, now: nat, freshness: QuoteFreshnessConfig)
    requires pool.dex == "meteora_dlmm" && pool.tokenMint != NATIVE_SOL_MINT
    ensures var q := QuoteExactIn(env, pool, vault, bins, orca, mintIn, mintOut, amountIn, now, freshness);
            var buys, sells := Buys(pool, mintIn, mintOut), Sells(pool, mintIn, mintOut);
            var ready := amountIn > 0 && vault.Some? && (buys || sells) && Current(vault.value, now, freshness)
                         && vault.value.activeId.Some? && vault.value.binStep.Some? && vault.value.binStep.value > 0
                         && bins.Some? && HasActiveBin(vault.value.activeId.value, bins.value);
            && (q.Some? ==> ready)
            && (ready ==>
                  var walked := env.binWalk(vault.value.activeId.value, vault.value.binStep.value, bins.value,
                                            buys == SolFirst(vault.value), amountIn);
                  && (q.Some? <==>
                        && walked.Some? && FairTrade(pool, buys, amountIn, walked.value)
                        && Near(SolPerToken(if buys then amountIn else walked.value, if buys then walked.value else amountIn,
                                            pool.tokenDecimals), Reference(pool, vault.value)))
                  && (q.Some? ==> q.value.amountOut == walked.value && Header(env, pool, vault.value, bins, orca, buys, amountIn, q.value)))
  {
    hide QuoteExactIn, ReservesAcceptable, DlmmOut, Header, Current, HasActiveBin, Near, Reference, SolPerToken, FairTrade, SolFirst;
    QuoteFrame(env, pool, vault, bins, orca, mintIn, mintOut, amountIn, now, freshness);
    if vault.Some? && amountIn > 0 {
      DlmmOutLaw(env, pool, vault.value, bins, if Buys(pool, mintIn, mintOut) then Buy else Sell, amountIn);
      FairIsPositive(pool, Buys(pool, mintIn, mintOut), amountIn);
    }
  }

  lemma FairIsPositive(pool: QuotePoolInput, buys: bool, amountIn: nat)
    ensures forall out: nat :: FairTrade(pool, buys, amountIn, out) ==> amountIn > 0 && out > 0
  {
  }

  // ----- Ticks -----

  /** Main result: a tick pool quotes exactly what its walk pays between the mints as given, if that is a fair trade. */
  lemma TickPoolLaw(env: Environment, pool: QuotePoolInput, vault: Option<QuoteVaultInput>, bins: Option<DlmmBinArrays>,
                    orca: OrcaExecCtx, mintIn: string, mintOut: string, amountIn: U64, now: nat, freshness: QuoteFreshnessConfig)
    requires pool.dex == "orca" && pool.tokenMint != NATIVE_SOL_MINT
    ensures var q := QuoteExactIn(env, pool, vault, bins, orca, mintIn, mintOut, amountIn, now, freshness);
            var buys, sells := Buys(pool, mintIn, mintOut), Sells(pool, mintIn, mintOut);
            var ready := amountIn > 0 && vault.Some? && (buys || sells) && Current(vault.value, now, freshness)
                         && orca.whirlpool.Some? && orca.ticks.Some?;
            && (q.Some? ==> ready)
            && (ready ==>
                  var walked := env.orcaWalk(orca.whirlpool.value, orca.ticks.value, mintIn, mintOut, amountIn);
                  && (q.Some? <==> walked.Some? && FairTrade(pool, buys, amountIn, walked.value))
                  && (q.Some? ==> q.value.amountOut == walked.value && Header(env, pool, vault.value, bins, orca, buys, amountIn, q.value)))
  {
    hide QuoteExactIn, Header, Current, SolPerToken, DlmmOut, CpmmOut;
    QuoteFrame(env, pool, vault, bins, orca, mintIn, mintOut, amountIn, now, freshness);
    if vault.Some? && amountIn > 0 && orca.whirlpool.Some? && orca.ticks.Some? {
      var walked := env.orcaWalk(orca.whirlpool.value, orca.ticks.value, mintIn, mintOut, amountIn);
      if walked.Some? && walked.value > 0 {
        ImpliedMeans(if Buys(pool, mintIn, mintOut) then Buy else Sell, amountIn, walked.value, pool.tokenDecimals);
      } else if walked.Some? {
        NothingOut(amountIn, pool.tokenDecimals);
      }
    }
  }

  lemma NothingOut(amountIn: nat, decimals: nat)
    requires amountIn > 0
    ensures ImpliedPrice(Buy, amountIn, 0, decimals) == 0.0 && ImpliedPrice(Sell, amountIn, 0, decimals) == 0.0
  {
  }

  /** Pools on any other DEX are never quoted. */
  lemma OtherPoolsLaw(env: Environment, pool: QuotePoolInput, vault: Option<QuoteVaultInput>, bins: Option<DlmmBinArrays>,
                      orca: OrcaExecCtx, mintIn: string, mintOut: string, amountIn: U64, now: nat, freshness: QuoteFreshnessConfig)
    requires pool.dex != "meteora_dlmm" && pool.dex != "orca" && !ConstantProduct(pool.dex)
    ensures QuoteExactIn(env, pool, vault, bins, orca, mintIn, mintOut, amountIn, now, freshness).None?
  {
    hide DlmmOut, OrcaOut;
  }

  // ----- The sell cap -----

  /** Selling `amount` of the token into the bins pays something. */
  ghost predicate SellsBins(env: Environment, vault: QuoteVaultInput, bins: DlmmBinArrays, amount: nat)
    requires vault.activeId.Some? && vault.binStep.Some?
  {
    amount < U64_LIMIT
    && var out := env.binWalk(vault.activeId.value, vault.binStep.value, bins, !SolFirst(vault), amount);
    out.Some? && out.value > 0
  }

  /** A sale on a constant-product pool is never lowered, except to nothing on a pump pool without a positive fee. */
  lemma ConstantProductCapLaw(env: Environment, pool: QuotePoolInput, vault: QuoteVaultInput, bins: Option<DlmmBinArrays>, amount: U64)
    requires ConstantProduct(pool.dex)
    ensures var fee := env.pumpFee(pool.tokenMint, vault.reserveBase, vault.reserveQuote);
            CapSellTokenIn(env, pool, vault, bins, amount)
            == if pool.dex == "pump_amm" && ReservesAcceptable(pool, vault) && (fee.None? || fee.value == 0) then 0 else amount
  {
    hide ReservesPlausible, ReservesAcceptable, CapSellTokenIn;
    ReservesMean(pool, vault);
    CpmmCapIsIdentity(env, pool, vault, bins, amount);
  }

  /** Only bin and constant-product pools cap. */
  lemma OtherCapLaw(env: Environment, pool: QuotePoolInput, vault: QuoteVaultInput, bins: Option<DlmmBinArrays>, amount: U64)
    requires pool.dex != "meteora_dlmm" && !ConstantProduct(pool.dex)
    ensures CapSellTokenIn(env, pool, vault, bins, amount) == amount
  {
  }

  /**
   On a bin pool a lowered sale is one the bins pay for, no deeper than the token side plus one; if they pay for
   less whenever they pay for more, it is the largest such sale, and a sale left alone is paid for as well.
   */
  lemma BinCapLaw(env: Environment, pool: QuotePoolInput, vault: QuoteVaultInput, bins: Option<DlmmBinArrays>, amount: U64)
    requires pool.dex == "meteora_dlmm"
    ensures var capped := CapSellTokenIn(env, pool, vault, bins, amount);
            var ready := vault.activeId.Some? && vault.binStep.Some? && bins.Some? && HasActiveBin(vault.activeId.value, bins.value);
            && capped <= amount && (!ready ==> capped == amount)
            && (ready ==>
                  var depth := env.binDepth(bins.value, SolFirst(vault));
                  var top := if depth + 1 < U64_LIMIT then depth + 1 else depth;
                  && (capped < amount ==> 0 < capped <= top && SellsBins(env, vault, bins.value, capped))
                  && ((forall a: nat, b: nat :: 0 < a <= b <= top && SellsBins(env, vault, bins.value, b) ==> SellsBins(env, vault, bins.value, a)) ==>
                        && (capped < amount ==> forall a: nat :: capped < a <= top ==> !SellsBins(env, vault, bins.value, a))
                        && (capped == amount > 0 && (exists a: nat :: 0 < a <= top && SellsBins(env, vault, bins.value, a)) ==>
                              SellsBins(env, vault, bins.value, amount))))
  {
    hide ActiveBinPresent, HasActiveBin, Bisect;
    if vault.activeId.Some? && vault.binStep.Some? && bins.Some? {
      ActiveMeans(vault.activeId.value, bins.value);
      var ok := DlmmAccepts(env, vault.activeId.value, vault.binStep.value, bins.value, SolIsX(vault));
      DlmmCapAccepted(env, vault.activeId.value, vault.binStep.value, bins.value, SolIsX(vault));
      assert forall a: nat :: ok(a) <==> SellsBins(env, vault, bins.value, a);
      hide DlmmAccepts, SellsBins;
    }
  }

  // ----- Complete inputs -----

  /** What each kind of pool needs before it is worth quoting. */
  ghost predicate HasInputs(env: Environment, pool: QuotePoolInput, vault: Option<QuoteVaultInput>, bins: Option<DlmmBinArrays>,
                            orca: OrcaExecCtx)
  {
    && vault.Some? && (ConstantProduct(pool.dex) || pool.dex == "orca" || pool.dex == "meteora_dlmm")
    && (pool.dex == "pump_amm" ==> env.pumpFeeLoaded)
    && (pool.dex == "orca" ==> orca.whirlpool.Some? && orca.ticks.Some?)
    && (pool.dex == "meteora_dlmm" ==>
          && vault.value.activeId.Some? && vault.value.binStep.Some? && vault.value.binStep.value > 0
          && bins.Some? && HasActiveBin(vault.value.activeId.value, bins.value))
  }

  lemma InputsLaw(env: Environment, pool: QuotePoolInput, vault: Option<QuoteVaultInput>, bins: Option<DlmmBinArrays>, orca: OrcaExecCtx)
    ensures InputsComplete(env, pool, vault, bins, orca) <==> HasInputs(env, pool, vault, bins, orca)
  {
    hide ActiveBinPresent, HasActiveBin;
    if vault.Some? && vault.value.activeId.Some? && bins.Some? {
      ActiveMeans(vault.value.activeId.value, bins.value);
    }
  }
}
