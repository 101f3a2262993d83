/**
 The pair selector (src/arbitrage/pool_quote.rs:2426-2735) in terms of quotes and amounts alone: which pairs are
 usable, which one is picked, and what a failure says.
 */
module RoundTripLaws {
  import opened Wrappers
  import opened Cpmm
  import opened PoolQuotes
  import opened QuoteLaws
  import opened RoundTrip

  function Ticks(t: Task, i: nat): OrcaExecCtx
    requires i < |t.candidates|
  {
    var address := t.candidates[i].pool.poolAddress;
    if address in t.orca then t.orca[address] else OrcaExecCtx(None, None)
  }

  /** Buying the probe amount at `i`. */
  function BuyLeg(t: Task, i: nat): Option<PoolQuote>
    requires i < |t.candidates|
  {
    var c := t.candidates[i];
    QuoteExactIn(t.env, c.pool, c.vault, c.bins, Ticks(t, i), "So11111111111111111111111111111111111111112", c.pool.tokenMint,
                 t.probe, t.buyRead(i), t.freshness)
  }

  /** Selling at `j` what was bought at `i`, as far as the pool takes it. */
  function SellLeg(t: Task, i: nat, j: nat): Option<PoolQuote>
    requires i < |t.candidates| && j < |t.candidates| && BuyLeg(t, i).Some? && t.candidates[j].vault.Some?
  {
    var c := t.candidates[j];
    QuoteExactIn(t.env, c.pool, c.vault, c.bins, Ticks(t, j), c.pool.tokenMint, "So11111111111111111111111111111111111111112",
                 CapSellTokenIn(t.env, c.pool, c.vault.value, c.bins, BuyLeg(t, i).value.amountOut), t.sellRead(i, j), t.freshness)
  }

  /** Two candidates under different labels, a buy that pays tokens, and a sale of them that pays SOL. */
  ghost predicate Trades(t: Task, i: int, j: int) {
    && 0 <= i < |t.candidates| && 0 <= j < |t.candidates| && t.candidates[i].dex != t.candidates[j].dex
    && (t.candidates[j].dex == "meteora_dlmm" ==> t.candidates[j].bins.Some?)
    && (t.candidates[j].dex == "orca" ==> Ticks(t, j).ticks.Some?)
    && BuyLeg(t, i).Some? && BuyLeg(t, i).value.amountOut > 0
    && t.candidates[j].vault.Some? && SellLeg(t, i, j).Some? && SellLeg(t, i, j).value.amountOut > 0
  }

  lemma PricePositive(lamports: nat, units: nat, decimals: nat)
    ensures TradeImpliedSolPerToken(lamports, units, decimals) > 0.0 <==> lamports > 0 && units > 0
  {
  }

  lemma LegsMean(t: Task, i: nat, j: nat)
    requires i < |t.candidates| && j < |t.candidates|
    ensures t.BuyQuote(i) == BuyLeg(t, i)
    ensures t.BuyQuote(i).Some? && t.candidates[j].vault.Some? ==> t.SellQuote(i, j) == SellLeg(t, i, j)
    ensures t.SellQuote(i, j).Some? ==> t.BuyQuote(i).Some? && t.candidates[j].vault.Some?
  {
    hide QuoteExactIn, CapSellTokenIn;
  }

  lemma BuyPositive(t: Task, i: nat)
    requires i < |t.candidates|
    ensures t.BuyOk(i) <==> BuyLeg(t, i).Some? && BuyLeg(t, i).value.amountOut > 0
  {
    hide QuoteExactIn, TradeImpliedSolPerToken;
    if BuyLeg(t, i).Some? {
      var c, q := t.candidates[i], BuyLeg(t, i).value;
      QuoteShape(t.env, c.pool, c.vault, c.bins, t.OrcaFor(i), NATIVE_SOL_MINT, c.pool.tokenMint, t.probe, t.buyRead(i), t.freshness);
      PricePositive(q.amountIn, q.amountOut, t.Decimals());
    }
  }

  lemma SellPositive(t: Task, i: nat, j: nat)
    requires i < |t.candidates| && j < |t.candidates| && t.SellQuote(i, j).Some?
    ensures var q := t.SellQuote(i, j).value;
            TradeImpliedSolPerToken(q.amountOut, q.amountIn, t.Decimals()) > 0.0 <==> q.amountOut > 0
  {
    hide QuoteExactIn, TradeImpliedSolPerToken, CapSellTokenIn;
    var c, q := t.candidates[j], t.SellQuote(i, j).value;
    QuoteShape(t.env, c.pool, c.vault, c.bins, t.OrcaFor(j), c.pool.tokenMint, NATIVE_SOL_MINT,
               CapSellTokenIn(t.env, c.pool, c.vault.value, c.bins, t.BuyQuote(i).value.amountOut), t.sellRead(i, j), t.freshness);
    PricePositive(q.amountOut, q.amountIn, t.Decimals());
  }

  lemma UsableMeans(t: Task, i: int, j: int)
    ensures t.Usable(i, j) <==> Trades(t, i, j)
    ensures t.Usable(i, j) ==> t.SellQuote(i, j) == SellLeg(t, i, j) && t.BuyQuote(i) == BuyLeg(t, i)
  {
    hide Task.BuyOk, Task.BuyQuote, Task.SellQuote, BuyLeg, SellLeg, TradeImpliedSolPerToken;
    if 0 <= i < |t.candidates| && 0 <= j < |t.candidates| {
      LegsMean(t, i, j);
      BuyPositive(t, i);
      if t.SellQuote(i, j).Some? {
        SellPositive(t, i, j);
      }
    }
  }

  /** Main result: the answer is the first of the pairs whose sale pays most, and there is none only if no pair trades. */
  lemma BestMeans(t: Task, best: Option<(nat, nat)>)
    ensures Best(t, best) <==>
            match best
            case None => forall i, j :: !Trades(t, i, j)
            case Some((a, b)) =>
              && Trades(t, a, b)
              && forall i, j :: Trades(t, i, j) ==>
                   && SellLeg(t, i, j).value.amountOut <= SellLeg(t, a, b).value.amountOut
                   && (i < a || (i == a && j < b) ==> SellLeg(t, i, j).value.amountOut < SellLeg(t, a, b).value.amountOut)
  {
    hide Task.Usable, Trades, SellLeg;
    forall i, j
      ensures t.Usable(i, j) <==> Trades(t, i, j)
      ensures t.Usable(i, j) ==> InRangeAndPays(t, i, j)
    {
      UsableMeans(t, i, j);
      TradesInRange(t, i, j);
      if t.Usable(i, j) {
        ProfitMeans(t, i, j);
      }
    }
  }

  ghost predicate InRangeAndPays(t: Task, i: int, j: int) {
    && t.Usable(i, j) && Trades(t, i, j)
    && 0 <= i < |t.candidates| && 0 <= j < |t.candidates|
    && t.Profit(i, j) == SellLeg(t, i, j).value.amountOut - t.probe
  }

  lemma TradesInRange(t: Task, i: int, j: int)
    ensures Trades(t, i, j) ==> 0 <= i < |t.candidates| && 0 <= j < |t.candidates|
  {
  }

  lemma ProfitMeans(t: Task, i: int, j: int)
    requires t.Usable(i, j)
    ensures InRangeAndPays(t, i, j)
  {
    hide BuyLeg, SellLeg, Task.SellQuote, Task.BuyQuote;
    UsableMeans(t, i, j);
  }

  // ----- Failures -----

  ghost predicate Listed(t: Task, i: int) {
    0 <= i < |t.candidates| && HasInputs(t.env, t.candidates[i].pool, t.candidates[i].vault, t.candidates[i].bins, Ticks(t, i))
  }

  /** The reason reported, by the first of four questions answered with no. */
  lemma FailureLaw(t: Task)
    requires t.Valid()
    ensures FailureReason(t)
            == if !(exists i, j :: Listed(t, i) && Listed(t, j) && i != j)
               then (if |t.candidates| < 2 then CandidatesLt2 else NoFreshBuyQuote)
               else if !(exists i :: 0 <= i < |t.candidates| && BuyLeg(t, i).Some? && BuyLeg(t, i).value.amountOut > 0) then NoFreshBuyQuote
               else if !(exists i, j :: Listed(t, i) && Listed(t, j) && t.candidates[i].dex != t.candidates[j].dex) then SingleDexCandidates
               else NoCrossDexSell
  {
    hide BuyLeg, HasInputs, Task.BuyOk, Task.Complete;
    forall i: nat
      ensures CompleteAt(t)(i) <==> Listed(t, i)
      ensures BuyableAt(t)(i) <==> i < |t.candidates| && BuyLeg(t, i).Some? && BuyLeg(t, i).value.amountOut > 0
    {
      if i < |t.candidates| {
        CompleteMeans(t, i);
        BuyPositive(t, i);
      }
    }
    assert forall i :: Listed(t, i) ==> 0 <= i < |t.candidates|;
    hide CompleteAt, BuyableAt, Listed;
  }

  lemma CompleteMeans(t: Task, i: nat)
    requires i < |t.candidates|
    ensures t.Complete(i) <==> Listed(t, i)
  {
    hide InputsComplete, HasInputs;
    InputsLaw(t.env, t.candidates[i].pool, t.candidates[i].vault, t.candidates[i].bins, Ticks(t, i));
  }
}
