/**
 Selection of the best cross-DEX buy/sell pair (src/arbitrage/pool_quote.rs:2426-2735), proved equal
 to brute force over all candidates. Candidates are named by their position; every quote has its own
 clock read, none earlier than the selector's.
 */
module RoundTrip {
  import opened Wrappers
  import opened Cpmm
  import opened PoolQuotes

  const I64_LIMIT: int := 0x8000_0000_0000_0000

  datatype Candidate = Candidate(pool: QuotePoolInput, vault: Option<QuoteVaultInput>, bins: Option<DlmmBinArrays>, dex: string)

  /** One call of the selector with the clock reads it will see. */
  datatype Task = Task(
    env: Environment, candidates: seq<Candidate>, orca: map<string, OrcaExecCtx>, probe: U64,
    freshness: QuoteFreshnessConfig, now: nat, buyRead: nat -> nat, sellRead: (nat, nat) -> nat)
  {
    ghost predicate Valid() {
      && EnvOk(env) && probe < I64_LIMIT
      && (forall i :: buyRead(i) >= now) && (forall i, j :: sellRead(i, j) >= now)
    }

    function OrcaFor(i: nat): OrcaExecCtx
      requires i < |candidates|
    {
      var address := candidates[i].pool.poolAddress;
      if address in orca then orca[address] else NO_ORCA
    }

    function Decimals(): nat {
      if candidates == [] then 6 else candidates[0].pool.tokenDecimals
    }

    predicate Complete(i: nat)
      requires i < |candidates|
    {
      InputsComplete(env, candidates[i].pool, candidates[i].vault, candidates[i].bins, OrcaFor(i))
    }

    /** The quote for buying the probe amount at candidate `i`. */
    function BuyQuote(i: nat): Option<PoolQuote>
      requires i < |candidates|
    {
      var c := candidates[i];
      QuoteExactIn(env, c.pool, c.vault, c.bins, OrcaFor(i), NATIVE_SOL_MINT, c.pool.tokenMint, probe, buyRead(i), freshness)
    }

    predicate BuyOk(i: nat)
      requires i < |candidates|
    {
      BuyQuote(i).Some? && TradeImpliedSolPerToken(BuyQuote(i).value.amountIn, BuyQuote(i).value.amountOut, Decimals()) > 0.0
    }

    /** The checks on the label of a selling candidate. */
    predicate LabelOk(j: nat)
      requires j < |candidates|
    {
      && (candidates[j].dex == "meteora_dlmm" ==> candidates[j].bins.Some?)
      && (candidates[j].dex == "orca" ==> OrcaFor(j).ticks.Some?)
    }

    /** The capped quote for selling at `j` what buying at `i` delivers. */
    function SellQuote(i: nat, j: nat): Option<PoolQuote>
      requires i < |candidates| && j < |candidates|
    {
      var c := candidates[j];
      if BuyQuote(i).None? || c.vault.None? then None
      else QuoteSellWithCap(env, c.pool, c.vault.value, c.bins, OrcaFor(j), BuyQuote(i).value.amountOut,
                            sellRead(i, j), freshness)
    }

    /** Brute force: a usable pair among all candidates, on different DEXes with positive outputs. */
    predicate PairOk(i: nat, j: nat)
      requires i < |candidates| && j < |candidates|
    {
      && candidates[i].dex != candidates[j].dex && BuyOk(i) && LabelOk(j)
      && SellQuote(i, j).Some?
      && TradeImpliedSolPerToken(SellQuote(i, j).value.amountOut, SellQuote(i, j).value.amountIn, Decimals()) > 0.0
    }

    function Profit(i: nat, j: nat): int
      requires i < |candidates| && j < |candidates| && PairOk(i, j)
    {
      SellQuote(i, j).value.amountOut - probe
    }

    ghost predicate Usable(i: int, j: int) {
      0 <= i < |candidates| && 0 <= j < |candidates| && PairOk(i, j)
    }
  }

  predicate Before(i: int, j: int, a: int, b: int) {
    i < a || (i == a && j < b)
  }

  /** `(a, b)` is the first of the most profitable usable pairs that come before position (i0, j0). */
  ghost predicate BestBefore(t: Task, best: Option<(nat, nat)>, i0: int, j0: int) {
    match best
    case None => forall i, j :: Before(i, j, i0, j0) ==> !t.Usable(i, j)
    case Some((a, b)) =>
      && t.Usable(a, b) && Before(a, b, i0, j0)
      && (forall i, j :: Before(i, j, i0, j0) && t.Usable(i, j) ==>
            t.Profit(i, j) <= t.Profit(a, b) && (Before(i, j, a, b) ==> t.Profit(i, j) < t.Profit(a, b)))
  }

  ghost predicate Best(t: Task, best: Option<(nat, nat)>) {
    BestBefore(t, best, |t.candidates|, 0)
  }

  /** There is only one such answer. */
  lemma BestIsUnique(t: Task, x: Option<(nat, nat)>, y: Option<(nat, nat)>)
    requires Best(t, x) && Best(t, y)
    ensures x == y
  {
    hide Task.PairOk, Task.SellQuote;
    if x.Some? && y.Some? {
      var ((a, b), (c, d)) := (x.value, y.value);
      assert t.Usable(a, b) && t.Usable(c, d);
    }
  }

  // ----- Why the filters lose nothing -----

  lemma BuyOkComplete(t: Task, i: nat)
    requires t.Valid() && i < |t.candidates| && t.BuyQuote(i).Some?
    ensures t.Complete(i)
    ensures IsQuoteFresh(t.env, t.BuyQuote(i).value, t.freshness, t.candidates[i].vault, t.candidates[i].bins, t.OrcaFor(i), t.now)
    ensures t.BuyQuote(i).value.kind.ExecutableMarginal?
  {
    hide QuoteExactIn, InputsComplete, IsQuoteFresh;
    var c := t.candidates[i];
    QuotableIsComplete(t.env, c.pool, c.vault, c.bins, t.OrcaFor(i), NATIVE_SOL_MINT, c.pool.tokenMint, t.probe, t.buyRead(i), t.freshness);
    EarlierRecheckAccepts(t.env, c.pool, c.vault, c.bins, t.OrcaFor(i), NATIVE_SOL_MINT, c.pool.tokenMint, t.probe, t.buyRead(i),
                          t.freshness, t.now);
    QuoteShape(t.env, c.pool, c.vault, c.bins, t.OrcaFor(i), NATIVE_SOL_MINT, c.pool.tokenMint, t.probe, t.buyRead(i), t.freshness);
  }

  lemma SellOkComplete(t: Task, i: nat, j: nat)
    requires t.Valid() && i < |t.candidates| && j < |t.candidates| && t.SellQuote(i, j).Some?
    ensures t.Complete(j)
    ensures IsQuoteFresh(t.env, t.SellQuote(i, j).value, t.freshness, t.candidates[j].vault, t.candidates[j].bins, t.OrcaFor(j), t.now)
    ensures t.SellQuote(i, j).value.kind.ExecutableMarginal?
  {
    hide QuoteExactIn, InputsComplete, IsQuoteFresh, CapSellTokenIn, Task.BuyQuote;
    var c := t.candidates[j];
    var capped := CapSellTokenIn(t.env, c.pool, c.vault.value, c.bins, t.BuyQuote(i).value.amountOut);
    QuotableIsComplete(t.env, c.pool, c.vault, c.bins, t.OrcaFor(j), c.pool.tokenMint, NATIVE_SOL_MINT, capped, t.sellRead(i, j), t.freshness);
    EarlierRecheckAccepts(t.env, c.pool, c.vault, c.bins, t.OrcaFor(j), c.pool.tokenMint, NATIVE_SOL_MINT, capped, t.sellRead(i, j),
                          t.freshness, t.now);
    QuoteShape(t.env, c.pool, c.vault, c.bins, t.OrcaFor(j), c.pool.tokenMint, NATIVE_SOL_MINT, capped, t.sellRead(i, j), t.freshness);
  }

  /** When a candidate carries its pool's own DEX label, the label checks follow from having a quote. */
  lemma LabelChecksAreRedundant(t: Task, i: nat, j: nat)
    requires t.Valid() && i < |t.candidates| && j < |t.candidates|
    requires t.candidates[j].dex == t.candidates[j].pool.dex && t.SellQuote(i, j).Some?
    ensures t.LabelOk(j)
  {
    hide Task.SellQuote;
    SellOkComplete(t, i, j);
  }

  /** At a CPMM pool, pump pools without a positive fee aside, the capped quote is the plain quote. */
  lemma CapChangesNothing(t: Task, i: nat, j: nat)
    requires i < |t.candidates| && j < |t.candidates| && t.BuyQuote(i).Some? && t.candidates[j].vault.Some?
    requires var c := t.candidates[j];
             SupportsCpmm(c.pool.dex)
             && (c.pool.dex == "pump_amm" ==>
                   CpmmFee(t.env, c.pool, c.vault.value).Some? && CpmmFee(t.env, c.pool, c.vault.value).value > 0)
    ensures var c := t.candidates[j];
            t.SellQuote(i, j)
            == QuoteExactIn(t.env, c.pool, c.vault, c.bins, t.OrcaFor(j), c.pool.tokenMint, NATIVE_SOL_MINT,
                            t.BuyQuote(i).value.amountOut, t.sellRead(i, j), t.freshness)
  {
    hide QuoteExactIn, CapSellTokenIn, Task.BuyQuote, ReservesPlausible;
    var c := t.candidates[j];
    CpmmCapIsIdentity(t.env, c.pool, c.vault.value, c.bins, t.BuyQuote(i).value.amountOut);
  }

  // ----- The selector -----

  datatype InsufficientReason = CandidatesLt2 | NoFreshBuyQuote | NoCrossDexSell | SingleDexCandidates

  datatype SelectFailure = InsufficientPools(reason: InsufficientReason) | IncompatibleQuoteKind | QuoteStale

  datatype Selection = Selection(
    buyPoolAddress: string, buyDex: string, sellPoolAddress: string, sellDex: string, buyQuote: PoolQuote, sellQuote: PoolQuote)

  datatype SelectResult = Ok(selection: Selection) | Err(failure: SelectFailure)

  ghost predicate IsSelection(t: Task, s: Selection, a: nat, b: nat) {
    && t.Usable(a, b)
    && s == Selection(t.candidates[a].pool.poolAddress, t.candidates[a].dex, t.candidates[b].pool.poolAddress,
                      t.candidates[b].dex, t.BuyQuote(a).value, t.SellQuote(a, b).value)
  }

  /**
   The selection is the usable pair (a, b), its sale pays at least as much as that of every usable pair, and
   more than that of every usable pair before it in scan order.
   */
  ghost predicate PaysMost(t: Task, s: Selection, a: nat, b: nat) {
    && IsSelection(t, s, a, b)
    && (forall i, j :: t.Usable(i, j) ==>
          && t.SellQuote(i, j).value.amountOut <= s.sellQuote.amountOut
          && (i < a || (i == a && j < b) ==> t.SellQuote(i, j).value.amountOut < s.sellQuote.amountOut))
  }

  lemma BestPaysMost(t: Task, s: Selection, a: nat, b: nat)
    requires Best(t, Some((a, b))) && IsSelection(t, s, a, b)
    ensures PaysMost(t, s, a, b)
  {
    hide Task.PairOk, Task.SellQuote, Task.BuyQuote;
    forall i, j | t.Usable(i, j)
      ensures t.Profit(i, j) <= t.Profit(a, b) && (Before(i, j, a, b) ==> t.Profit(i, j) < t.Profit(a, b))
    {
      assert Before(i, j, |t.candidates|, 0);
    }
  }

  /** The positions satisfying a filter, ascending. */
  ghost predicate Filtered(indices: seq<nat>, n: nat, keep: nat -> bool) {
    && (forall k :: 0 <= k < |indices| ==> indices[k] < n && keep(indices[k]))
    && (forall k, l :: 0 <= k < l < |indices| ==> indices[k] < indices[l])
    && (forall i :: 0 <= i < n && keep(i) ==> i in indices)
  }

  ghost function CompleteAt(t: Task): nat -> bool {
    (i: nat) => i < |t.candidates| && t.Complete(i)
  }

  ghost function BuyableAt(t: Task): nat -> bool {
    (i: nat) => i < |t.candidates| && t.BuyOk(i)
  }

  lemma FilteredMore(indices: seq<nat>, n: nat, keep: nat -> bool)
    requires Filtered(indices, n, keep)
    ensures keep(n) ==> Filtered(indices + [n], n + 1, keep)
    ensures !keep(n) ==> Filtered(indices, n + 1, keep)
  {
    if keep(n) {
      var longer := indices + [n];
      assert longer[|indices|] == n;
      forall i | 0 <= i < n + 1 && keep(i)
        ensures i in longer
      {
        if i < n {
          assert i in indices;
        }
      }
    }
  }

  method PairingCandidates(t: Task) returns (pairing: seq<nat>)
    ensures Filtered(pairing, |t.candidates|, CompleteAt(t))
  {
    hide Task.Complete;
    pairing := [];
    for i := 0 to |t.candidates|
      invariant Filtered(pairing, i, CompleteAt(t))
    {
      FilteredMore(pairing, i, CompleteAt(t));
      if t.Complete(i) {
        pairing := pairing + [i];
      }
    }
  }

  /** Where the k-th entry of a list of positions stands; past the last one, the end. */
  ghost function Bound(indices: seq<nat>, k: nat, n: nat): nat {
    if k < |indices| then indices[k] else n
  }

  lemma FilteredGap(indices: seq<nat>, a: nat, b: nat, keep: nat -> bool)
    requires Filtered(indices, a, keep) && a <= b && forall i: nat :: a <= i < b ==> !keep(i)
    ensures Filtered(indices, b, keep)
  {
  }

  /** Between two neighboring entries of a filtered list nothing passes the filter. */
  lemma NothingBetween(indices: seq<nat>, n: nat, keep: nat -> bool, k: nat, i: nat)
    requires Filtered(indices, n, keep) && k <= |indices| && i < Bound(indices, k, n)
    requires k > 0 ==> indices[k - 1] < i
    ensures i < n && !keep(i)
  {
    forall l | 0 <= l < |indices|
      ensures indices[l] != i
    {
      assert k > 0 && l < k - 1 ==> indices[l] < indices[k - 1];
      assert k < l ==> indices[k] < indices[l];
    }
  }

  lemma BuyableIsComplete(t: Task, i: nat)
    requires t.Valid() && BuyableAt(t)(i)
    ensures CompleteAt(t)(i)
  {
    hide Task.Complete, Task.BuyQuote, IsQuoteFresh;
    BuyOkComplete(t, i);
  }

  /** From one pairing candidate to the next no buy leg is skipped. */
  lemma NextBuy(t: Task, pairing: seq<nat>, buys: seq<nat>, k: nat, from: nat)
    requires t.Valid() && Filtered(pairing, |t.candidates|, CompleteAt(t)) && k <= |pairing|
    requires from == if k == 0 then 0 else pairing[k - 1] + 1
    requires Filtered(buys, from, BuyableAt(t))
    ensures Filtered(buys, Bound(pairing, k, |t.candidates|), BuyableAt(t))
  {
    hide CompleteAt, BuyableAt, Task.Valid;
    var to := Bound(pairing, k, |t.candidates|);
    forall i: nat | from <= i < to
      ensures !BuyableAt(t)(i)
    {
      NothingBetween(pairing, |t.candidates|, CompleteAt(t), k, i);
      if BuyableAt(t)(i) {
        BuyableIsComplete(t, i);
      }
    }
    assert from <= to by {
      assert k > 0 && k < |pairing| ==> pairing[k - 1] < pairing[k];
    }
    FilteredGap(buys, from, to, BuyableAt(t));
  }

  /** Quotes every pairing candidate as a buy leg and keeps the usable ones. */
  method ValidBuys(t: Task, pairing: seq<nat>) returns (buys: seq<nat>)
    requires t.Valid() && Filtered(pairing, |t.candidates|, CompleteAt(t))
    ensures Filtered(buys, |t.candidates|, BuyableAt(t))
  {
    hide Task.Valid;
    buys := [];
    NextBuy(t, pairing, buys, 0, 0);
    for k := 0 to |pairing|
      invariant Filtered(buys, Bound(pairing, k, |t.candidates|), BuyableAt(t))
    {
      var i := pairing[k];
      FilteredMore(buys, i, BuyableAt(t));
      var usable := TryBuy(t, i);
      if usable {
        buys := buys + [i];
      }
      NextBuy(t, pairing, buys, k + 1, i + 1);
    }
  }

  /** One buy leg: quoted, fresh on re-check, and delivering something. */
  method TryBuy(t: Task, i: nat) returns (usable: bool)
    requires t.Valid() && i < |t.candidates|
    ensures usable <==> t.BuyOk(i)
  {
    hide Task.Valid, Task.Complete, IsQuoteFresh, Task.BuyQuote, TradeImpliedSolPerToken;
    var c := t.candidates[i];
    var quote := t.BuyQuote(i);
    if quote.None? {
      return false;
    }
    BuyOkComplete(t, i);
    if !IsQuoteFresh(t.env, quote.value, t.freshness, c.vault, c.bins, t.OrcaFor(i), t.now) {
      return false;
    }
    if TradeImpliedSolPerToken(quote.value.amountIn, quote.value.amountOut, t.Decimals()) <= 0.0 {
      return false;
    }
    return true;
  }

  /** What one sell leg comes to. */
  datatype SellOutcome = Usable(quote: PoolQuote) | Incompatible | Unusable

  /** One sell leg: label checks, capped quote, freshness re-check, same quote kind, positive output. */
  method TrySell(t: Task, i: nat, j: nat) returns (outcome: SellOutcome)
    requires t.Valid() && i < |t.candidates| && j < |t.candidates| && t.BuyOk(i)
    requires t.candidates[i].dex != t.candidates[j].dex
    ensures outcome == if t.PairOk(i, j) then Usable(t.SellQuote(i, j).value) else Unusable
  {
    hide Task.Valid, Task.Complete, IsQuoteFresh, Task.BuyQuote, TradeImpliedSolPerToken, QuoteSellWithCap;
    var c := t.candidates[j];
    if c.dex == "meteora_dlmm" && c.bins.None? {
      return Unusable;
    }
    if c.dex == "orca" && t.OrcaFor(j).ticks.None? {
      return Unusable;
    }
    if c.vault.None? {
      return Unusable;
    }
    var buy := t.BuyQuote(i).value;
    var quote := QuoteSellWithCap(t.env, c.pool, c.vault.value, c.bins, t.OrcaFor(j), buy.amountOut, t.sellRead(i, j), t.freshness);
    if quote.None? {
      return Unusable;
    }
    SellOkComplete(t, i, j);
    BuyOkComplete(t, i);
    if !IsQuoteFresh(t.env, quote.value, t.freshness, c.vault, c.bins, t.OrcaFor(j), t.now) {
      return Unusable;
    }
    if buy.kind != quote.value.kind {
      return Incompatible;
    }
    if TradeImpliedSolPerToken(quote.value.amountOut, quote.value.amountIn, t.Decimals()) <= 0.0 {
      return Unusable;
    }
    return Usable(quote.value);
  }

  // ----- Scanning the pairs -----

  lemma PairIsListed(t: Task, i: nat, j: nat)
    requires t.Valid() && t.Usable(i, j)
    ensures BuyableAt(t)(i) && CompleteAt(t)(j)
  {
    hide Task.Valid, Task.Complete, Task.BuyQuote, Task.SellQuote, IsQuoteFresh;
    SellOkComplete(t, i, j);
  }

  /** Moving past positions where no usable pair lies. */
  lemma BestSkips(t: Task, best: Option<(nat, nat)>, i0: nat, j0: nat, i1: nat, j1: nat)
    requires BestBefore(t, best, i0, j0)
    requires i0 < i1 || (i0 == i1 && j0 <= j1)
    requires forall i, j :: t.Usable(i, j) && !Before(i, j, i0, j0) ==> !Before(i, j, i1, j1)
    ensures BestBefore(t, best, i1, j1)
  {
    hide Task.Usable, Task.Profit;
  }

  /** Looking at one more usable pair. */
  lemma BestTakes(t: Task, best: Option<(nat, nat)>, i: nat, j: nat)
    requires BestBefore(t, best, i, j) && t.Usable(i, j)
    ensures best.None? || t.Profit(best.value.0, best.value.1) < t.Profit(i, j) ==> BestBefore(t, Some((i, j)), i, j + 1)
    ensures best.Some? && t.Profit(best.value.0, best.value.1) >= t.Profit(i, j) ==> BestBefore(t, best, i, j + 1)
  {
    hide Task.PairOk, Task.SellQuote;
  }

  /** From one entry of the pairing list to the next, at the same buy leg. */
  lemma NextSell(t: Task, pairing: seq<nat>, best: Option<(nat, nat)>, i: nat, k: nat, from: nat)
    requires t.Valid() && Filtered(pairing, |t.candidates|, CompleteAt(t)) && k <= |pairing|
    requires from == if k == 0 then 0 else pairing[k - 1] + 1
    requires BestBefore(t, best, i, from)
    ensures BestBefore(t, best, i, Bound(pairing, k, |t.candidates|))
  {
    hide CompleteAt, BuyableAt, Task.Valid, Task.Usable, BestBefore;
    var to := Bound(pairing, k, |t.candidates|);
    forall a, b | t.Usable(a, b) && !Before(a, b, i, from)
      ensures !Before(a, b, i, to)
    {
      UsableRange(t, a, b);
      PairIsListed(t, a, b);
      if a == i && from <= b < to {
        NothingBetween(pairing, |t.candidates|, CompleteAt(t), k, b);
      }
    }
    assert from <= to by {
      assert k > 0 && k < |pairing| ==> pairing[k - 1] < pairing[k];
    }
    BestSkips(t, best, i, from, i, to);
  }

  lemma UsableRange(t: Task, i: int, j: int)
    requires t.Usable(i, j)
    ensures 0 <= i < |t.candidates| && 0 <= j < |t.candidates|
  {
  }

  /** From one buy leg to the next. */
  lemma NextBuyLeg(t: Task, buys: seq<nat>, best: Option<(nat, nat)>, k: nat, from: nat, column: nat)
    requires t.Valid() && Filtered(buys, |t.candidates|, BuyableAt(t)) && k <= |buys|
    requires (k == 0 && from == 0 && column == 0) || (k > 0 && from == buys[k - 1] && column == |t.candidates|)
    requires BestBefore(t, best, from, column)
    ensures BestBefore(t, best, Bound(buys, k, |t.candidates|), 0)
  {
    hide CompleteAt, BuyableAt, Task.Valid, Task.Usable, BestBefore;
    var to := Bound(buys, k, |t.candidates|);
    forall a, b | t.Usable(a, b) && !Before(a, b, from, column)
      ensures !Before(a, b, to, 0)
    {
      UsableRange(t, a, b);
      PairIsListed(t, a, b);
      if a < to {
        NothingBetween(buys, |t.candidates|, BuyableAt(t), k, a);
      }
    }
    assert k > 0 && k < |buys| ==> buys[k - 1] < buys[k];
    BestSkips(t, best, from, column, to, 0);
  }

  /** No usable pair with equal labels, so skipping one changes nothing. */
  lemma SkipPair(t: Task, best: Option<(nat, nat)>, i: nat, j: nat)
    requires BestBefore(t, best, i, j) && !t.Usable(i, j)
    ensures BestBefore(t, best, i, j + 1)
  {
    hide Task.Usable;
    BestSkips(t, best, i, j, i, j + 1);
  }

  /** The profit the loop compares against: the best so far, or the least 64-bit value. */
  ghost predicate ProfitTracked(t: Task, best: Option<(nat, nat)>, quote: Option<PoolQuote>, profit: int) {
    match best
    case None => profit == -I64_LIMIT
    case Some((a, b)) => t.Usable(a, b) && quote == t.SellQuote(a, b) && profit == t.Profit(a, b)
  }

  /** Tries to sell what buy leg `i` delivers at every pairing candidate. */
  method ScanSells(t: Task, pairing: seq<nat>, i: nat, best0: Option<(nat, nat)>, quote0: Option<PoolQuote>, profit0: int)
    returns (best: Option<(nat, nat)>, quote: Option<PoolQuote>, profit: int, incompatible: bool)
    requires t.Valid() && Filtered(pairing, |t.candidates|, CompleteAt(t)) && i < |t.candidates| && t.BuyOk(i)
    requires BestBefore(t, best0, i, 0) && ProfitTracked(t, best0, quote0, profit0)
    ensures BestBefore(t, best, i, |t.candidates|) && ProfitTracked(t, best, quote, profit)
    ensures !incompatible
  {
    hide Task.Complete, Task.BuyOk, Task.SellQuote, BestBefore, CompleteAt;
    best, quote, profit, incompatible := best0, quote0, profit0, false;
    NextSell(t, pairing, best, i, 0, 0);
    for k := 0 to |pairing|
      invariant BestBefore(t, best, i, Bound(pairing, k, |t.candidates|)) && ProfitTracked(t, best, quote, profit)
      invariant !incompatible
    {
      var j := pairing[k];
      if t.candidates[j].dex == t.candidates[i].dex {
        SkipPair(t, best, i, j);
      } else {
        var outcome := TrySell(t, i, j);
        match outcome
        case Incompatible => incompatible := true;
        case Unusable =>
          SkipPair(t, best, i, j);
        case Usable(sell) =>
          BestTakes(t, best, i, j);
          var roundTrip := sell.amountOut - t.probe;
          if roundTrip > profit {
            best, quote, profit := Some((i, j)), Some(sell), roundTrip;
          }
      }
      NextSell(t, pairing, best, i, k + 1, j + 1);
    }
  }

  // ----- The selector as a whole -----

  ghost predicate AtMostOneComplete(t: Task) {
    forall i: nat, j: nat :: CompleteAt(t)(i) && CompleteAt(t)(j) ==> i == j
  }

  ghost predicate NoneBuyable(t: Task) {
    forall i: nat :: !BuyableAt(t)(i)
  }

  /** All candidates with complete inputs carry one DEX label. */
  ghost predicate OneLabel(t: Task) {
    forall i: nat, j: nat :: i < |t.candidates| && j < |t.candidates| && CompleteAt(t)(i) && CompleteAt(t)(j) ==>
      t.candidates[i].dex == t.candidates[j].dex
  }

  /** What a failure reports. */
  ghost function FailureReason(t: Task): InsufficientReason {
    if AtMostOneComplete(t) then (if |t.candidates| < 2 then CandidatesLt2 else NoFreshBuyQuote)
    else if NoneBuyable(t) then NoFreshBuyQuote
    else if OneLabel(t) then SingleDexCandidates
    else NoCrossDexSell
  }

  lemma FewerThanTwo(t: Task, pairing: seq<nat>)
    requires Filtered(pairing, |t.candidates|, CompleteAt(t))
    ensures |pairing| < 2 <==> AtMostOneComplete(t)
    ensures forall i: nat :: CompleteAt(t)(i) <==> i in pairing
  {
    hide Task.Complete;
    assert forall i: nat :: CompleteAt(t)(i) ==> i < |t.candidates|;
    if |pairing| >= 2 {
      assert CompleteAt(t)(pairing[0]) && CompleteAt(t)(pairing[1]) && pairing[0] < pairing[1];
    }
  }

  lemma NoUsablePair(t: Task)
    requires t.Valid() && (AtMostOneComplete(t) || NoneBuyable(t) || OneLabel(t))
    ensures Best(t, None)
  {
    hide CompleteAt, BuyableAt, Task.Valid, Task.Usable;
    forall i, j
      ensures !t.Usable(i, j)
    {
      if t.Usable(i, j) {
        UsableRange(t, i, j);
        PairIsListed(t, i, j);
        BuyableIsComplete(t, i);
        DifferentLabels(t, i, j);
      }
    }
  }

  lemma DifferentLabels(t: Task, i: int, j: int)
    requires t.Usable(i, j)
    ensures 0 <= i < |t.candidates| && 0 <= j < |t.candidates| && t.candidates[i].dex != t.candidates[j].dex
  {
    hide Task.BuyOk, Task.SellQuote;
  }

  /** Fewer than two distinct labels among the pairing candidates. */
  method SingleLabel(t: Task, pairing: seq<nat>) returns (single: bool)
    requires Filtered(pairing, |t.candidates|, CompleteAt(t))
    ensures single <==> OneLabel(t)
  {
    hide CompleteAt;
    FewerThanTwo(t, pairing);
    var labels := set k | 0 <= k < |pairing| :: t.candidates[pairing[k]].dex;
    single := |labels| < 2;
    if single {
      forall i: nat, j: nat | i < |t.candidates| && j < |t.candidates| && i in pairing && j in pairing
        ensures t.candidates[i].dex == t.candidates[j].dex
      {
        assert t.candidates[i].dex in labels && t.candidates[j].dex in labels;
        SmallSet(labels, t.candidates[i].dex, t.candidates[j].dex);
      }
    } else {
      var x, y := TwoMembers(labels);
      ghost var k :| 0 <= k < |pairing| && t.candidates[pairing[k]].dex == x;
      ghost var l :| 0 <= l < |pairing| && t.candidates[pairing[l]].dex == y;
      assert CompleteAt(t)(pairing[k]) && CompleteAt(t)(pairing[l]);
    }
  }

  lemma SmallSet(s: set<string>, x: string, y: string)
    requires |s| < 2 && x in s && y in s
    ensures x == y
  {
    assert |s - {x}| == |s| - 1;
    assert y != x ==> y in s - {x};
  }

  lemma TwoMembers(s: set<string>) returns (x: string, y: string)
    requires |s| >= 2
    ensures x in s && y in s && x != y
  {
    x :| x in s;
    assert |s - {x}| == |s| - 1;
    y :| y in s - {x};
  }

  /**
   Main result: the selector succeeds exactly if brute force finds a usable pair, returns the first most
   profitable one, and otherwise can only fail for want of pools, never for staleness or quote kinds.
   */
  method SelectRoundTripPools(t: Task) returns (r: SelectResult)
    requires t.Valid()
    ensures r.Ok? <==> exists i, j :: t.Usable(i, j)
    ensures r.Ok? ==> exists a: nat, b: nat :: Best(t, Some((a, b))) && IsSelection(t, r.selection, a, b) && PaysMost(t, r.selection, a, b)
    ensures r.Err? ==> Best(t, None) && r.failure == InsufficientPools(FailureReason(t))
  {
    hide CompleteAt, BuyableAt, Task.Valid, Task.Usable, NoneBuyable, OneLabel, AtMostOneComplete, BestBefore, Filtered;
    var pairing := PairingCandidates(t);
    FewerThanTwo(t, pairing);
    if |pairing| < 2 {
      NoUsablePair(t);
      NoneUsable(t);
      return Err(InsufficientPools(if |t.candidates| < 2 then CandidatesLt2 else NoFreshBuyQuote));
    }
    var buys := ValidBuys(t, pairing);
    if buys == [] {
      NoBuys(t, buys);
      NoUsablePair(t);
      NoneUsable(t);
      return Err(InsufficientPools(NoFreshBuyQuote));
    }
    SomeBuy(t, buys);
    var single := SingleLabel(t, pairing);
    if single {
      NoUsablePair(t);
      NoneUsable(t);
      return Err(InsufficientPools(SingleDexCandidates));
    }
    var best, quote, incompatible := ScanPairs(t, pairing, buys);
    if best.None? {
      NoneUsable(t);
      return Err(if incompatible then IncompatibleQuoteKind else InsufficientPools(NoCrossDexSell));
    }
    var (a, b) := best.value;
    BestIsUsable(t, a, b);
    r := Ok(Selection(t.candidates[a].pool.poolAddress, t.candidates[a].dex, t.candidates[b].pool.poolAddress,
                      t.candidates[b].dex, t.BuyQuote(a).value, quote.value));
    assert IsSelection(t, r.selection, a, b);
    BestPaysMost(t, r.selection, a, b);
  }

  lemma NoneUsable(t: Task)
    requires Best(t, None)
    ensures !exists i, j :: t.Usable(i, j)
  {
    hide Task.PairOk;
    forall i, j
      ensures !t.Usable(i, j)
    {
      assert t.Usable(i, j) ==> Before(i, j, |t.candidates|, 0);
    }
  }

  lemma NoBuys(t: Task, buys: seq<nat>)
    requires Filtered(buys, |t.candidates|, BuyableAt(t)) && buys == []
    ensures NoneBuyable(t)
  {
    hide Task.BuyOk;
  }

  lemma SomeBuy(t: Task, buys: seq<nat>)
    requires Filtered(buys, |t.candidates|, BuyableAt(t)) && buys != []
    ensures !NoneBuyable(t)
  {
    assert BuyableAt(t)(buys[0]);
  }

  lemma BestIsUsable(t: Task, a: nat, b: nat)
    requires Best(t, Some((a, b)))
    ensures t.Usable(a, b) && a < |t.candidates| && b < |t.candidates|
    ensures t.BuyQuote(a).Some? && t.SellQuote(a, b).Some?
  {
    hide Task.SellQuote, Task.BuyQuote;
  }

  /** The nested loops over buy and sell legs. */
  method ScanPairs(t: Task, pairing: seq<nat>, buys: seq<nat>)
    returns (best: Option<(nat, nat)>, quote: Option<PoolQuote>, incompatible: bool)
    requires t.Valid() && Filtered(pairing, |t.candidates|, CompleteAt(t)) && Filtered(buys, |t.candidates|, BuyableAt(t))
    ensures Best(t, best) && !incompatible
    ensures best.Some? ==> t.Usable(best.value.0, best.value.1) && quote == t.SellQuote(best.value.0, best.value.1)
  {
    hide Task.Valid, Task.Complete, Task.BuyOk, Task.PairOk, Task.SellQuote, BestBefore;
    var profit: int := -I64_LIMIT;
    best, quote, incompatible := None, None, false;
    StartBest(t);
    NextBuyLeg(t, buys, best, 0, 0, 0);
    for k := 0 to |buys|
      invariant BestBefore(t, best, Bound(buys, k, |t.candidates|), 0) && ProfitTracked(t, best, quote, profit)
      invariant !incompatible
    {
      var saw;
      best, quote, profit, saw := ScanSells(t, pairing, buys[k], best, quote, profit);
      incompatible := incompatible || saw;
      NextBuyLeg(t, buys, best, k + 1, buys[k], |t.candidates|);
    }
  }

  lemma StartBest(t: Task)
    ensures BestBefore(t, None, 0, 0)
  {
  }

  // ----- The answer as a function -----

  /** Brute force position by position: a best pair before every position exists. */
  lemma {:induction false} BestExists(t: Task, i: nat, j: nat) returns (best: Option<(nat, nat)>)
    requires i <= |t.candidates| && j <= |t.candidates|
    ensures BestBefore(t, best, i, j)
    decreases i, j
  {
    hide Task.PairOk, Task.SellQuote;
    if j > 0 {
      best := BestExists(t, i, j - 1);
      if t.Usable(i, j - 1) {
        BestTakes(t, best, i, j - 1);
        if best.None? || t.Profit(best.value.0, best.value.1) < t.Profit(i, j - 1) {
          best := Some((i, j - 1));
        }
      } else {
        SkipPair(t, best, i, j - 1);
      }
    } else if i > 0 {
      best := BestExists(t, i - 1, |t.candidates|);
      BestSkips(t, best, i - 1, |t.candidates|, i, 0);
    } else {
      best := None;
    }
  }

  lemma SomeBest(t: Task)
    ensures exists best :: Best(t, best)
  {
    hide BestBefore;
    var best := BestExists(t, |t.candidates|, 0);
    assert Best(t, best);
  }

  /** The pair brute force picks. */
  ghost function BestPair(t: Task): (best: Option<(nat, nat)>)
    ensures Best(t, best)
  {
    SomeBest(t);
    var best :| Best(t, best);
    best
  }
}
