/**
 The quoter (src/arbitrage/pool_quote.rs): one exact-in quote from cached pool state, its freshness
 re-check, the input-completeness filter, screening prices and the sell cap. The DLMM bin walker, the
 Orca tick walker, the pump fee table and the state hash are functions of an environment; prices are
 exact rationals.
 */
module PoolQuotes {
  import opened Wrappers
  import opened Cpmm

  const NATIVE_SOL_MINT: string := "So11111111111111111111111111111111111111112"
  const USDC_MINT: string := "EPjFWdd5AufqSSqeM2qN1xzybapC8G4wEGGkZwyTDt1v"
  const USDT_MINT: string := "Es9vMFrzaCERmJfrF4H2FYD4KCoNkY11McCe8BenwNYB"
  const DLMM_PROBE_SOL_LAMPORTS: U64 := 10_000_000
  const BINS_PER_ARRAY: int := 70
  const MAX_DEVIATION: real := 100.0

  datatype QuoteKind = ExecutableMarginal | LastTradeMid
  datatype QuoteSide = Buy | Sell

  datatype QuoteFreshnessConfig = QuoteFreshnessConfig(tradeTtlMs: nat, stateTtlMs: nat)

  const DEFAULT_FRESHNESS: QuoteFreshnessConfig := QuoteFreshnessConfig(30_000, 120_000)

  datatype QuotePoolInput = QuotePoolInput(
    poolAddress: string, dex: string, tokenMint: string,
    tradePriceBuy: Option<real>, tradePriceSell: Option<real>, tokenDecimals: nat)

  datatype QuoteVaultInput = QuoteVaultInput(
    reserveBase: U64, reserveQuote: U64, updateSlot: nat, updatedAt: nat,
    activeId: Option<int>, binStep: Option<nat>, dlmmSolIsX: bool, dlmmTokenXMint: Option<string>)

  datatype BinData = BinData(offset: nat, amountX: U64, amountY: U64)
  type DlmmBinArrays = map<int, seq<BinData>>

  datatype OrcaWhirlpool = OrcaWhirlpool(sqrtPrice: nat, liquidity: nat, tickCurrentIndex: int, tickSpacing: nat, feeRate: nat)
  type OrcaTickArrays = map<int, seq<(int, int)>>
  datatype OrcaExecCtx = OrcaExecCtx(whirlpool: Option<OrcaWhirlpool>, ticks: Option<OrcaTickArrays>)

  const NO_ORCA: OrcaExecCtx := OrcaExecCtx(None, None)

  datatype PoolQuote = PoolQuote(
    poolAddress: string, dex: string, kind: QuoteKind, side: QuoteSide, asOfSlot: nat, asOfTs: nat,
    stateFingerprint: nat, amountIn: U64, amountOut: U64)

  /** The parts computed elsewhere. `binWalk` swaps X for Y if its flag is set, else Y for X. */
  datatype Environment = Environment(
    fingerprint: (QuoteVaultInput, Option<DlmmBinArrays>, OrcaExecCtx) -> nat,
    binWalk: (int, nat, DlmmBinArrays, bool, U64) -> Option<U64>,
    binDepth: (DlmmBinArrays, bool) -> U64,
    orcaWalk: (OrcaWhirlpool, OrcaTickArrays, string, string, U64) -> Option<U64>,
    pumpFee: (string, U64, U64) -> Option<FeeBps>,
    pumpFeeLoaded: bool)

  /** Without a loaded fee configuration no pump fee can be looked up. */
  ghost predicate EnvOk(env: Environment) {
    !env.pumpFeeLoaded ==> forall mint, base, quote :: env.pumpFee(mint, base, quote).None?
  }

  // ----- Prices -----

  function Pow10(n: nat): (r: real)
    ensures r > 0.0
  {
    if n == 0 then 1.0 else 10.0 * Pow10(n - 1)
  }

  function TradeImpliedSolPerToken(sol: nat, token: nat, decimals: nat): real {
    if token == 0 then 0.0 else (sol as real / 1_000_000_000.0) / (token as real / Pow10(decimals))
  }

  predicate PlausiblePrice(mint: string, price: real) {
    price > 0.0 && (mint == USDC_MINT || mint == USDT_MINT ==> 0.0001 <= price <= 1.0)
  }

  function ReserveMid(base: nat, quote: nat, decimals: nat): Option<real> {
    if base == 0 || quote == 0 then None else Some(TradeImpliedSolPerToken(quote, base, decimals))
  }

  predicate ReservesPlausible(vault: QuoteVaultInput, pool: QuotePoolInput) {
    && vault.reserveBase > 0 && vault.reserveQuote > 0
    && var mid := ReserveMid(vault.reserveBase, vault.reserveQuote, pool.tokenDecimals);
    mid.Some? && PlausiblePrice(pool.tokenMint, mid.value)
  }

  function TradeMid(pool: QuotePoolInput): Option<real> {
    match (pool.tradePriceBuy, pool.tradePriceSell)
    case (Some(buy), Some(sell)) => if buy > 0.0 && sell > 0.0 then Some((buy + sell) / 2.0) else None
    case (Some(one), None) => if one > 0.0 then Some(one) else None
    case (None, Some(one)) => if one > 0.0 then Some(one) else None
    case (None, None) => None
  }

  predicate MarginalPlausible(marginal: real, reserveMid: Option<real>, tradeMid: Option<real>) {
    var reference := if reserveMid.Some? then reserveMid else tradeMid;
    if reference.None? || reference.value <= 0.0 then true
    else if marginal <= 0.0 then false
    else if marginal > reference.value then marginal / reference.value <= MAX_DEVIATION
    else reference.value / marginal <= MAX_DEVIATION
  }

  // ----- DLMM bins -----

  function AsI32(x: int): int {
    (x + 0x8000_0000) % 0x1_0000_0000 - 0x8000_0000
  }

  predicate ActiveBinPresent(activeId: int, bins: DlmmBinArrays) {
    exists k :: k in bins && exists i :: 0 <= i < |bins[k]| && AsI32(k * BINS_PER_ARRAY + bins[k][i].offset) == activeId
  }

  function SolIsX(vault: QuoteVaultInput): bool {
    if vault.dlmmTokenXMint.Some? then vault.dlmmTokenXMint.value == NATIVE_SOL_MINT else vault.dlmmSolIsX
  }

  predicate BinParamsReady(vault: QuoteVaultInput) {
    vault.activeId.Some? && vault.binStep.Some? && vault.binStep.value > 0
  }

  /** Output of the bin walker; None for no output, a zero output or a missing active bin. */
  function BinsOutput(env: Environment, activeId: int, binStep: nat, amountIn: U64, bins: DlmmBinArrays, xToY: bool): Option<U64> {
    if binStep == 0 || bins == map[] || amountIn == 0 || !ActiveBinPresent(activeId, bins) then None
    else
      var out :- env.binWalk(activeId, binStep, bins, xToY, amountIn);
      if out == 0 then None else Some(out)
  }

  // ----- One quote -----

  predicate SupportsCpmm(dex: string) {
    dex == "pump_amm" || dex == "raydium" || dex == "raydium_cpmm" || dex == "meteora_cpmm"
  }

  function CpmmFee(env: Environment, pool: QuotePoolInput, vault: QuoteVaultInput): Option<FeeBps> {
    if pool.dex == "pump_amm" then env.pumpFee(pool.tokenMint, vault.reserveBase, vault.reserveQuote) else Some(25)
  }

  function Age(since: nat, now: nat): nat {
    if now >= since then now - since else 0
  }

  predicate StateFresh(vault: QuoteVaultInput, now: nat, ttlMs: nat) {
    Age(vault.updatedAt, now) <= ttlMs
  }

  function ImpliedPrice(side: QuoteSide, amountIn: nat, amountOut: nat, decimals: nat): real {
    match side
    case Buy => TradeImpliedSolPerToken(amountIn, amountOut, decimals)
    case Sell => TradeImpliedSolPerToken(amountOut, amountIn, decimals)
  }

  function DlmmOut(env: Environment, pool: QuotePoolInput, vault: QuoteVaultInput, bins: Option<DlmmBinArrays>,
                   side: QuoteSide, amountIn: U64): Option<U64>
  {
    if !BinParamsReady(vault) || bins.None? then None
    else
      var xToY := if side.Buy? then SolIsX(vault) else !SolIsX(vault);
      var out :- BinsOutput(env, vault.activeId.value, vault.binStep.value, amountIn, bins.value, xToY);
      var reserveMid := if ReservesPlausible(vault, pool)
                        then ReserveMid(vault.reserveBase, vault.reserveQuote, pool.tokenDecimals) else None;
      var tradeMid := if TradeMid(pool).Some? && PlausiblePrice(pool.tokenMint, TradeMid(pool).value)
                      then TradeMid(pool) else None;
      var marginal := ImpliedPrice(side, amountIn, out, pool.tokenDecimals);
      if MarginalPlausible(marginal, reserveMid, tradeMid) && PlausiblePrice(pool.tokenMint, marginal)
      then Some(out) else None
  }

  function OrcaOut(env: Environment, pool: QuotePoolInput, orca: OrcaExecCtx, side: QuoteSide, amountIn: U64): Option<U64> {
    if orca.whirlpool.None? || orca.ticks.None? then None
    else
      var (mintIn, mintOut) := if side.Buy? then (NATIVE_SOL_MINT, pool.tokenMint) else (pool.tokenMint, NATIVE_SOL_MINT);
      var out :- env.orcaWalk(orca.whirlpool.value, orca.ticks.value, mintIn, mintOut, amountIn);
      if PlausiblePrice(pool.tokenMint, ImpliedPrice(side, amountIn, out, pool.tokenDecimals)) then Some(out) else None
  }

  function CpmmOut(env: Environment, pool: QuotePoolInput, vault: QuoteVaultInput, side: QuoteSide, amountIn: U64): Option<U64> {
    if !SupportsCpmm(pool.dex) || !ReservesPlausible(vault, pool) then None
    else
      var fee :- CpmmFee(env, pool, vault);
      match side
      case Buy => CpmmAmountOut(vault.reserveQuote, vault.reserveBase, amountIn, fee)
      case Sell => CpmmAmountOut(vault.reserveBase, vault.reserveQuote, amountIn, fee)
  }

  function ExecutableMarginalQuote(env: Environment, pool: QuotePoolInput, vault: QuoteVaultInput,
                                   bins: Option<DlmmBinArrays>, orca: OrcaExecCtx, side: QuoteSide, amountIn: U64,
                                   now: nat, freshness: QuoteFreshnessConfig): Option<PoolQuote>
  {
    if !StateFresh(vault, now, freshness.stateTtlMs) then None
    else
      var out :-
        if pool.dex == "meteora_dlmm" then DlmmOut(env, pool, vault, bins, side, amountIn)
        else if pool.dex == "orca" then OrcaOut(env, pool, orca, side, amountIn)
        else CpmmOut(env, pool, vault, side, amountIn);
      Some(PoolQuote(pool.poolAddress, pool.dex, ExecutableMarginal, side, vault.updateSlot, vault.updatedAt,
                     env.fingerprint(vault, bins, orca), amountIn, out))
  }

  function SideOf(tokenMint: string, mintIn: string, mintOut: string): Option<QuoteSide> {
    if mintIn == NATIVE_SOL_MINT && mintOut == tokenMint then Some(Buy)
    else if mintIn == tokenMint && mintOut == NATIVE_SOL_MINT then Some(Sell)
    else None
  }

  /** The quoter; `now` is its own clock read. */
  function QuoteExactIn(env: Environment, pool: QuotePoolInput, vault: Option<QuoteVaultInput>,
                        bins: Option<DlmmBinArrays>, orca: OrcaExecCtx, mintIn: string, mintOut: string,
                        amountIn: U64, now: nat, freshness: QuoteFreshnessConfig): Option<PoolQuote>
  {
    if amountIn == 0 then None
    else
      var side :- SideOf(pool.tokenMint, mintIn, mintOut);
      if vault.None? then None
      else ExecutableMarginalQuote(env, pool, vault.value, bins, orca, side, amountIn, now, freshness)
  }

  // ----- Freshness re-check and input completeness -----

  predicate IsQuoteFresh(env: Environment, quote: PoolQuote, config: QuoteFreshnessConfig,
                         vault: Option<QuoteVaultInput>, bins: Option<DlmmBinArrays>, orca: OrcaExecCtx, now: nat)
  {
    match quote.kind
    case LastTradeMid => Age(quote.asOfTs, now) <= config.tradeTtlMs
    case ExecutableMarginal =>
      && Age(quote.asOfTs, now) <= config.stateTtlMs
      && (vault.Some? ==> env.fingerprint(vault.value, bins, orca) == quote.stateFingerprint)
  }

  predicate InputsComplete(env: Environment, pool: QuotePoolInput, vault: Option<QuoteVaultInput>,
                           bins: Option<DlmmBinArrays>, orca: OrcaExecCtx)
  {
    if pool.dex == "pump_amm" then vault.Some? && env.pumpFeeLoaded
    else if pool.dex == "orca" then vault.Some? && orca.whirlpool.Some? && orca.ticks.Some?
    else if pool.dex == "meteora_dlmm" then
      vault.Some? && BinParamsReady(vault.value) && bins.Some? && ActiveBinPresent(vault.value.activeId.value, bins.value)
    else SupportsCpmm(pool.dex) && vault.Some?
  }

  /** What every quote carries: its kind, its amounts, and a snapshot that was fresh when it was read. */
  lemma QuoteShape(env: Environment, pool: QuotePoolInput, vault: Option<QuoteVaultInput>,
                   bins: Option<DlmmBinArrays>, orca: OrcaExecCtx, mintIn: string, mintOut: string,
                   amountIn: U64, now: nat, freshness: QuoteFreshnessConfig)
    requires QuoteExactIn(env, pool, vault, bins, orca, mintIn, mintOut, amountIn, now, freshness).Some?
    ensures var q := QuoteExactIn(env, pool, vault, bins, orca, mintIn, mintOut, amountIn, now, freshness).value;
            && vault.Some? && q.kind.ExecutableMarginal? && q.amountIn == amountIn > 0
            && q.asOfTs == vault.value.updatedAt && Age(q.asOfTs, now) <= freshness.stateTtlMs
            && q.stateFingerprint == env.fingerprint(vault.value, bins, orca)
  {
    hide DlmmOut, OrcaOut, CpmmOut;
  }

  /** The re-check of a quote against an earlier clock read never rejects it. */
  lemma EarlierRecheckAccepts(env: Environment, pool: QuotePoolInput, vault: Option<QuoteVaultInput>,
                              bins: Option<DlmmBinArrays>, orca: OrcaExecCtx, mintIn: string, mintOut: string,
                              amountIn: U64, readAt: nat, freshness: QuoteFreshnessConfig, now: nat)
    requires now <= readAt
    requires QuoteExactIn(env, pool, vault, bins, orca, mintIn, mintOut, amountIn, readAt, freshness).Some?
    ensures var q := QuoteExactIn(env, pool, vault, bins, orca, mintIn, mintOut, amountIn, readAt, freshness).value;
            IsQuoteFresh(env, q, freshness, vault, bins, orca, now)
  {
    hide QuoteExactIn;
    QuoteShape(env, pool, vault, bins, orca, mintIn, mintOut, amountIn, readAt, freshness);
  }

  /** The completeness filter drops only pools that cannot be quoted at all. */
  lemma QuotableIsComplete(env: Environment, pool: QuotePoolInput, vault: Option<QuoteVaultInput>,
                           bins: Option<DlmmBinArrays>, orca: OrcaExecCtx, mintIn: string, mintOut: string,
                           amountIn: U64, now: nat, freshness: QuoteFreshnessConfig)
    requires EnvOk(env)
    requires QuoteExactIn(env, pool, vault, bins, orca, mintIn, mintOut, amountIn, now, freshness).Some?
    ensures InputsComplete(env, pool, vault, bins, orca)
  {
    hide PlausiblePrice, MarginalPlausible, ReservesPlausible, ActiveBinPresent, ImpliedPrice, TradeMid, CpmmAmountOut;
  }

  // ----- Screening prices -----

  /** SOL per token; the sell side sells what the buy side would deliver. One clock read per quote. */
  function ScreeningPrice(env: Environment, pool: QuotePoolInput, vault: Option<QuoteVaultInput>,
                          bins: Option<DlmmBinArrays>, side: QuoteSide, firstRead: nat, secondRead: nat): Option<real>
  {
    match side
    case Buy =>
      var quote :- QuoteExactIn(env, pool, vault, bins, NO_ORCA, NATIVE_SOL_MINT, pool.tokenMint,
                                DLMM_PROBE_SOL_LAMPORTS, firstRead, DEFAULT_FRESHNESS);
      Some(TradeImpliedSolPerToken(quote.amountIn, quote.amountOut, pool.tokenDecimals))
    case Sell =>
      var bought :- QuoteExactIn(env, pool, vault, bins, NO_ORCA, NATIVE_SOL_MINT, pool.tokenMint,
                                 DLMM_PROBE_SOL_LAMPORTS, firstRead, DEFAULT_FRESHNESS);
      var quote :- QuoteExactIn(env, pool, vault, bins, NO_ORCA, pool.tokenMint, NATIVE_SOL_MINT,
                                bought.amountOut, secondRead, DEFAULT_FRESHNESS);
      Some(TradeImpliedSolPerToken(quote.amountOut, quote.amountIn, pool.tokenDecimals))
  }

  lemma CpmmQuoteAmount(env: Environment, pool: QuotePoolInput, vault: QuoteVaultInput, bins: Option<DlmmBinArrays>,
                        orca: OrcaExecCtx, side: QuoteSide, amountIn: U64, now: nat, freshness: QuoteFreshnessConfig)
    requires SupportsCpmm(pool.dex) && pool.tokenMint != NATIVE_SOL_MINT
    requires var (mintIn, mintOut) := if side.Buy? then (NATIVE_SOL_MINT, pool.tokenMint) else (pool.tokenMint, NATIVE_SOL_MINT);
             QuoteExactIn(env, pool, Some(vault), bins, orca, mintIn, mintOut, amountIn, now, freshness).Some?
    ensures var (mintIn, mintOut) := if side.Buy? then (NATIVE_SOL_MINT, pool.tokenMint) else (pool.tokenMint, NATIVE_SOL_MINT);
            var q := QuoteExactIn(env, pool, Some(vault), bins, orca, mintIn, mintOut, amountIn, now, freshness).value;
            CpmmOut(env, pool, vault, side, amountIn) == Some(q.amountOut) && amountIn > 0 && q.amountIn == amountIn
  {
    hide CpmmOut;
  }

  /** On one CPMM pool the screening sell price is strictly below the screening buy price. */
  lemma SellBelowBuy(env: Environment, pool: QuotePoolInput, vault: QuoteVaultInput, bins: Option<DlmmBinArrays>,
                     buyRead: nat, firstRead: nat, secondRead: nat)
    requires SupportsCpmm(pool.dex) && pool.tokenMint != NATIVE_SOL_MINT
    requires ScreeningPrice(env, pool, Some(vault), bins, Buy, buyRead, buyRead).Some?
    requires ScreeningPrice(env, pool, Some(vault), bins, Sell, firstRead, secondRead).Some?
    ensures ScreeningPrice(env, pool, Some(vault), bins, Sell, firstRead, secondRead).value
            < ScreeningPrice(env, pool, Some(vault), bins, Buy, buyRead, buyRead).value
  {
    hide QuoteExactIn, CpmmAmountOut, TradeImpliedSolPerToken, ReservesPlausible;
    var probe := DLMM_PROBE_SOL_LAMPORTS;
    CpmmQuoteAmount(env, pool, vault, bins, NO_ORCA, Buy, probe, buyRead, DEFAULT_FRESHNESS);
    CpmmQuoteAmount(env, pool, vault, bins, NO_ORCA, Buy, probe, firstRead, DEFAULT_FRESHNESS);
    var bought := CpmmOut(env, pool, vault, Buy, probe).value;
    CpmmQuoteAmount(env, pool, vault, bins, NO_ORCA, Sell, bought, secondRead, DEFAULT_FRESHNESS);
    var fee := CpmmFee(env, pool, vault).value;
    RoundTripLoses(vault.reserveQuote, vault.reserveBase, probe, fee);
    PriceGrowsWithSol(CpmmOut(env, pool, vault, Sell, bought).value, probe, bought, pool.tokenDecimals);
  }

  lemma PriceGrowsWithSol(a: nat, b: nat, token: nat, decimals: nat)
    requires a < b && token > 0
    ensures TradeImpliedSolPerToken(a, token, decimals) < TradeImpliedSolPerToken(b, token, decimals)
  {
    var unit := token as real / Pow10(decimals);
    assert unit > 0.0;
    DivideBoth(a as real / 1_000_000_000.0, b as real / 1_000_000_000.0, unit);
  }

  lemma DivideBoth(x: real, y: real, d: real)
    requires x < y && d > 0.0
    ensures x / d < y / d
  {
    assert x / d * d == x && y / d * d == y;
  }

  // ----- Sell caps -----

  /** Largest amount the bin walker is found to accept, up to the bins' depth plus one. */
  function DlmmMaxSellTokenIn(env: Environment, activeId: int, binStep: nat, bins: DlmmBinArrays, solIsX: bool): nat {
    if !ActiveBinPresent(activeId, bins) then 0
    else Bisect(DlmmAccepts(env, activeId, binStep, bins, solIsX), 0, SaturatingSucc(env.binDepth(bins, solIsX)))
  }

  function SaturatingSucc(x: U64): U64 {
    if x + 1 < U64_LIMIT then x + 1 else x
  }

  function DlmmAccepts(env: Environment, activeId: int, binStep: nat, bins: DlmmBinArrays, solIsX: bool): nat -> bool {
    (amount: nat) =>
      amount < U64_LIMIT
      && var out := env.binWalk(activeId, binStep, bins, !solIsX, amount); out.Some? && out.value > 0
  }

  /** The search returns 0 or an accepted amount; the largest accepted one if acceptance is downward closed. */
  lemma DlmmCapAccepted(env: Environment, activeId: int, binStep: nat, bins: DlmmBinArrays, solIsX: bool)
    ensures var cap := DlmmMaxSellTokenIn(env, activeId, binStep, bins, solIsX);
            var ok := DlmmAccepts(env, activeId, binStep, bins, solIsX);
            var top := SaturatingSucc(env.binDepth(bins, solIsX));
            && (cap == 0 || (ok(cap) && cap <= top))
            && (ActiveBinPresent(activeId, bins) && (forall a, b :: 0 < a <= b <= top && ok(b) ==> ok(a)) ==>
                  forall a :: cap < a <= top ==> !ok(a))
  {
    hide DlmmAccepts, ActiveBinPresent;
    var ok := DlmmAccepts(env, activeId, binStep, bins, solIsX);
    var top := SaturatingSucc(env.binDepth(bins, solIsX));
    BisectAccepted(ok, 0, top);
    if forall a, b :: 0 < a <= b <= top && ok(b) ==> ok(a) {
      BisectLargest(ok, 0, top);
    }
  }

  function CpmmAccepts(vault: QuoteVaultInput, fee: FeeBps): nat -> bool {
    (amount: nat) => amount < U64_LIMIT && CpmmAmountOut(vault.reserveBase, vault.reserveQuote, amount, fee).Some?
  }

  function CapSellTokenIn(env: Environment, pool: QuotePoolInput, vault: QuoteVaultInput, bins: Option<DlmmBinArrays>,
                          amount: U64): U64
  {
    if pool.dex == "meteora_dlmm" then
      if vault.activeId.Some? && vault.binStep.Some? && bins.Some? then
        var cap := DlmmMaxSellTokenIn(env, vault.activeId.value, vault.binStep.value, bins.value, SolIsX(vault));
        if 0 < cap < amount then cap else amount
      else amount
    else if SupportsCpmm(pool.dex) && ReservesPlausible(vault, pool) then
      var found := CpmmFee(env, pool, vault);
      var fee: FeeBps := if found.Some? then found.value else 0;
      if fee == 0 && pool.dex == "pump_amm" then 0
      else
        var lo := Bisect(CpmmAccepts(vault, fee), 0, amount);
        if 0 < lo < amount then lo else amount
    else amount
  }

  /** The cap never lowers a CPMM sale: the search ends at nothing or at the full amount. */
  lemma CpmmCapIsIdentity(env: Environment, pool: QuotePoolInput, vault: QuoteVaultInput, bins: Option<DlmmBinArrays>, amount: U64)
    requires SupportsCpmm(pool.dex)
    ensures var fee := CpmmFee(env, pool, vault);
            CapSellTokenIn(env, pool, vault, bins, amount)
            == if pool.dex == "pump_amm" && ReservesPlausible(vault, pool) && (fee.None? || fee.value == 0) then 0
               else amount
  {
    hide ReservesPlausible, CpmmAmountOut;
    var found := CpmmFee(env, pool, vault);
    var fee: FeeBps := if found.Some? then found.value else 0;
    var ok := CpmmAccepts(vault, fee);
    forall a, b | 0 < a <= b <= amount && ok(a)
      ensures ok(b)
    {
      OutMonotone(vault.reserveBase, vault.reserveQuote, a, b, fee);
    }
    BisectUpward(ok, 0, amount);
  }

  /** The cap as the code runs it. */
  method CapSellTokenInLoop(env: Environment, pool: QuotePoolInput, vault: QuoteVaultInput,
                            bins: Option<DlmmBinArrays>, amount: U64) returns (capped: U64)
    ensures capped == CapSellTokenIn(env, pool, vault, bins, amount)
  {
    hide ReservesPlausible, ActiveBinPresent, CpmmAccepts, DlmmAccepts, Bisect;
    capped := amount;
    if pool.dex == "meteora_dlmm" {
      if vault.activeId.Some? && vault.binStep.Some? && bins.Some? {
        var maxIn := 0;
        if ActiveBinPresent(vault.activeId.value, bins.value) {
          maxIn := BisectLoop(DlmmAccepts(env, vault.activeId.value, vault.binStep.value, bins.value, SolIsX(vault)),
                              SaturatingSucc(env.binDepth(bins.value, SolIsX(vault))));
        }
        if maxIn > 0 && amount > maxIn {
          capped := maxIn;
        }
      }
    } else if SupportsCpmm(pool.dex) && ReservesPlausible(vault, pool) {
      var found := CpmmFee(env, pool, vault);
      var fee: FeeBps := if found.Some? then found.value else 0;
      if fee == 0 && pool.dex == "pump_amm" {
        return 0;
      }
      var lo := BisectLoop(CpmmAccepts(vault, fee), amount);
      if lo > 0 && lo < amount {
        capped := lo;
      }
    }
  }

  /** A token-to-SOL quote with the input capped to what the pool can take. */
  function QuoteSellWithCap(env: Environment, pool: QuotePoolInput, vault: QuoteVaultInput, bins: Option<DlmmBinArrays>,
                            orca: OrcaExecCtx, amount: U64, now: nat, freshness: QuoteFreshnessConfig): Option<PoolQuote>
  {
    QuoteExactIn(env, pool, Some(vault), bins, orca, pool.tokenMint, NATIVE_SOL_MINT,
                 CapSellTokenIn(env, pool, vault, bins, amount), now, freshness)
  }
}
