/**
 What the ledger (scripts/trades_server.py:608-744) does, field by field: how each trade moves a position,
 what each row shows, what the summary counts, and that displayed profit and charged cost make up the proceeds.
 */
module LedgerLaws {
  import opened Wrappers
  import opened Sorting
  import opened Ledger

  /** The trade is about mint `m` and has an amount. */
  ghost predicate About(t: Trade, m: string) {
    t.mintFull == Some(m) && m != "" && m != "-" && t.amountTokens.Some? && t.amountTokens.value != 0.0
  }

  /** The position in `m` before row `i`. */
  ghost function Held(rows: seq<Trade>, i: nat, m: string): Position
    requires i <= |rows|
  {
    At(Book(rows[..i]), m)
  }

  // ----- The rows are walked in time order -----

  lemma TimeOrder(trades: seq<Trade>)
    ensures var rows := Sort(trades, Earlier);
            multiset(rows) == multiset(trades) && forall i, j :: 0 <= i < j < |rows| ==> rows[i].timestampMs <= rows[j].timestampMs
  {
    SortSorted(trades, Earlier);
  }

  // ----- How a trade moves a position -----

  /** The purchase, sale or other row at `i`, in terms of its own fields. */
  lemma PositionLaw(rows: seq<Trade>, i: nat, m: string)
    requires i < |rows|
    ensures var t, before, after := rows[i], Held(rows, i, m), Held(rows, i + 1, m);
            if About(t, m) && t.action == "BUY" && t.valueSol.Some? && t.valueSol.value > 0.0 then
              after == Position(before.tokens + t.amountTokens.value, before.costSol + t.valueSol.value)
            else if About(t, m) && t.action == "BUY" && t.walletSolDelta.Some? && t.walletSolDelta.value > 0.0 then
              after == Position(before.tokens + t.amountTokens.value, before.costSol + t.walletSolDelta.value)
            else if About(t, m) && t.action == "BUY" && t.walletSolDelta.Some? && t.walletSolDelta.value < 0.0 then
              after == Position(before.tokens + t.amountTokens.value, before.costSol - t.walletSolDelta.value)
            else if About(t, m) && t.action == "SELL" && before.tokens > 0.0 then
              var left := before.tokens - t.amountTokens.value;
              var rest := before.costSol - before.costSol / before.tokens * t.amountTokens.value;
              after == Position(if left > 0.0 then left else 0.0, if rest > 0.0 then rest else 0.0)
            else after == before
  {
    hide DisplayedRows, Displayed, Book;
    NextRow(rows, i);
    TradeLaw(Book(rows[..i]), rows[i], m);
  }

  /** One trade on any positions. */
  lemma TradeLaw(positions: Positions, t: Trade, m: string)
    ensures var before, after := At(positions, m), At(AfterTrade(positions, t), m);
            if About(t, m) && t.action == "BUY" && t.valueSol.Some? && t.valueSol.value > 0.0 then
              after == Position(before.tokens + t.amountTokens.value, before.costSol + t.valueSol.value)
            else if About(t, m) && t.action == "BUY" && t.walletSolDelta.Some? && t.walletSolDelta.value > 0.0 then
              after == Position(before.tokens + t.amountTokens.value, before.costSol + t.walletSolDelta.value)
            else if About(t, m) && t.action == "BUY" && t.walletSolDelta.Some? && t.walletSolDelta.value < 0.0 then
              after == Position(before.tokens + t.amountTokens.value, before.costSol - t.walletSolDelta.value)
            else if About(t, m) && t.action == "SELL" && before.tokens > 0.0 then
              var left := before.tokens - t.amountTokens.value;
              var rest := before.costSol - before.costSol / before.tokens * t.amountTokens.value;
              after == Position(if left > 0.0 then left else 0.0, if rest > 0.0 then rest else 0.0)
            else after == before
  {
    if About(t, m) && t.action == "SELL" && At(positions, m).tokens > 0.0 {
      SoldCostIs(positions[m], t.amountTokens.value);
      hide SoldCost;
    } else {
      hide AfterSell;
    }
  }

  lemma SoldCostIs(pos: Position, amount: real)
    requires pos.tokens != 0.0
    ensures SoldCost(pos, amount) == pos.costSol / pos.tokens * amount
  {
  }

  // ----- What a row shows -----

  /** The row is a sale out of an open position. */
  ghost predicate Realises(rows: seq<Trade>, i: nat, m: string)
    requires i < |rows|
  {
    About(rows[i], m) && rows[i].action == "SELL" && Held(rows, i, m).tokens > 0.0
  }

  /** What came in: the fill if positive, else a positive wallet change, else nothing. */
  ghost function Income(t: Trade): real {
    if t.valueSol.Some? && t.valueSol.value > 0.0 then t.valueSol.value
    else if t.walletSolDelta.Some? && t.walletSolDelta.value > 0.0 then t.walletSolDelta.value
    else 0.0
  }

  /** The average cost of what the row sells. */
  ghost function Basis(rows: seq<Trade>, i: nat, m: string): real
    requires i < |rows| && Realises(rows, i, m)
  {
    Held(rows, i, m).costSol / Held(rows, i, m).tokens * rows[i].amountTokens.value
  }

  /** A realised sale shows what came in minus what was paid for it, and the percentage of that. */
  lemma RealisedLaw(rows: seq<Trade>, i: nat, m: string)
    requires i < |rows| && Realises(rows, i, m)
    ensures var shown, basis := DisplayedRows(rows)[i], Basis(rows, i, m);
            && shown.pnlSol == Some(Income(rows[i]) - basis)
            && shown.pnlPct == (if basis > 0.0 then Some((Income(rows[i]) - basis) / basis * 100.0) else None)
            && shown.(pnlSol := rows[i].pnlSol, pnlPct := rows[i].pnlPct) == rows[i]
  {
    hide Book, DisplayedRows, SellPnl, SoldCost, Basis;
    DisplayedAt(rows, i, |rows|);
    assert rows[..|rows|] == rows;
    SaleFacts(rows, i, m);
  }

  /** The model's sale, in the terms above. */
  lemma SaleFacts(rows: seq<Trade>, i: nat, m: string)
    requires i < |rows| && Realises(rows, i, m)
    ensures var positions := Book(rows[..i]);
            && IsRealised(positions, rows[i]) && positions[m].tokens != 0.0
            && SoldCost(positions[m], rows[i].amountTokens.value) == Basis(rows, i, m)
            && SellPnl(positions, rows[i]) == Income(rows[i]) - Basis(rows, i, m)
  {
    hide Book;
    SoldCostIs(Held(rows, i, m), rows[i].amountTokens.value);
    hide SoldCost;
  }

  /** All other rows: a counted purchase shows zero, a sale of nothing held shows nothing, the rest is as it came. */
  lemma OtherRowsLaw(rows: seq<Trade>, i: nat)
    requires i < |rows| && forall m :: !Realises(rows, i, m)
    ensures var t, shown := rows[i], DisplayedRows(rows)[i];
            var about := t.mintFull.Some? && About(t, t.mintFull.value);
            var paid := (t.valueSol.Some? && t.valueSol.value > 0.0) || (t.walletSolDelta.Some? && t.walletSolDelta.value != 0.0);
            shown == if about && t.action == "BUY" && paid then t.(pnlSol := Some(0.0), pnlPct := None)
                     else if about && t.action == "SELL" then t.(pnlSol := None, pnlPct := None)
                     else t
  {
    hide Book, AfterTrade, DisplayedRows;
    DisplayedAt(rows, i, |rows|);
    assert rows[..|rows|] == rows;
    assert rows[i].mintFull.Some? ==> !Realises(rows, i, rows[i].mintFull.value);
  }

  // ----- Profit, cost and proceeds -----

  /** Profit displayed on the realised sales of `m`. */
  ghost function ShownProfit(rows: seq<Trade>, shown: seq<Trade>, m: string, n: nat): real
    requires n <= |rows| == |shown|
  {
    if n == 0 then 0.0
    else ShownProfit(rows, shown, m, n - 1)
         + if Realises(rows, n - 1, m) && shown[n - 1].pnlSol.Some? then shown[n - 1].pnlSol.value else 0.0
  }

  /** What the realised sales of `m` brought in. */
  ghost function TotalIncome(rows: seq<Trade>, m: string, n: nat): real
    requires n <= |rows|
  {
    if n == 0 then 0.0
    else TotalIncome(rows, m, n - 1) + if Realises(rows, n - 1, m) then Income(rows[n - 1]) else 0.0
  }

  lemma ChargedStep(rows: seq<Trade>, m: string, n: nat)
    requires 0 < n <= |rows|
    ensures Charged(rows[..n], m) == Charged(rows[..n - 1], m) + if Realises(rows, n - 1, m) then Basis(rows, n - 1, m) else 0.0
  {
    hide Book;
    assert rows[..n][..n - 1] == rows[..n - 1];
    assert SellsAt(rows[..n], n - 1, m) <==> Realises(rows, n - 1, m);
  }

  lemma {:induction false} ProfitUpTo(rows: seq<Trade>, m: string, n: nat)
    requires n <= |rows|
    ensures ShownProfit(rows, DisplayedRows(rows), m, n) + Charged(rows[..n], m) == TotalIncome(rows, m, n)
  {
    hide DisplayedRows, Book, Charged, Basis;
    if n > 0 {
      ProfitUpTo(rows, m, n - 1);
      ChargedStep(rows, m, n);
      if Realises(rows, n - 1, m) {
        RealisedLaw(rows, n - 1, m);
      }
    } else {
      NothingCharged(rows, m);
    }
  }

  lemma NothingCharged(rows: seq<Trade>, m: string)
    ensures Charged(rows[..0], m) == 0.0
  {
  }

  /** Main result: per mint, the displayed profit and the charged cost make up exactly what the sales brought in. */
  lemma ProfitAndCostAreIncome(rows: seq<Trade>, m: string)
    ensures ShownProfit(rows, DisplayedRows(rows), m, |rows|) + Charged(rows, m) == TotalIncome(rows, m, |rows|)
  {
    ProfitUpTo(rows, m, |rows|);
    assert rows[..|rows|] == rows;
  }

  // ----- The summary -----

  ghost predicate IsSale(rows: seq<Trade>, i: nat)
    requires i < |rows|
  {
    rows[i].mintFull.Some? && Realises(rows, i, rows[i].mintFull.value)
  }

  /** A row without mint or amount that carries its own profit. */
  ghost predicate IsArbitrageRow(t: Trade) {
    t.action == "ARBITRAGE" && (t.mintFull.None? || !About(t, t.mintFull.value))
  }

  ghost predicate Counted(rows: seq<Trade>, cutoffMs: int, i: nat)
    requires i < |rows|
  {
    rows[i].timestampMs >= cutoffMs && (IsSale(rows, i) || IsArbitrageRow(rows[i]))
  }

  ghost function Gain(rows: seq<Trade>, i: nat): real
    requires i < |rows|
  {
    if IsSale(rows, i) then Income(rows[i]) - Basis(rows, i, rows[i].mintFull.value)
    else if rows[i].pnlSol.Some? then rows[i].pnlSol.value
    else 0.0
  }

  ghost function TotalGain(rows: seq<Trade>, cutoffMs: int, n: nat): real
    requires n <= |rows|
  {
    if n == 0 then 0.0
    else TotalGain(rows, cutoffMs, n - 1) + if Counted(rows, cutoffMs, n - 1) then Gain(rows, n - 1) else 0.0
  }

  ghost function Wins(rows: seq<Trade>, cutoffMs: int, n: nat): set<nat>
    requires n <= |rows|
  {
    set i: nat | i < n && Counted(rows, cutoffMs, i) && Gain(rows, i) >= 0.0
  }

  ghost function Losses(rows: seq<Trade>, cutoffMs: int, n: nat): set<nat>
    requires n <= |rows|
  {
    set i: nat | i < n && Counted(rows, cutoffMs, i) && Gain(rows, i) < 0.0
  }

  lemma SummaryStep(rows: seq<Trade>, cutoffMs: int, n: nat)
    requires n < |rows|
    ensures var before := Summarise(DisplayedRows(rows[..n]), rows[..n], cutoffMs);
            Summarise(DisplayedRows(rows[..n + 1]), rows[..n + 1], cutoffMs)
            == if !Counted(rows, cutoffMs, n) then before
               else Summary(before.realizedPnlSol + Gain(rows, n), before.tradeCount + 1,
                            before.wins + (if Gain(rows, n) >= 0.0 then 1 else 0),
                            before.losses + if Gain(rows, n) >= 0.0 then 0 else 1)
  {
    hide Book, AfterTrade, DisplayedRows, Summarise, Basis;
    NextSummary(rows, n, cutoffMs);
    if IsSale(rows, n) {
      SaleRow(rows, n);
    }
  }

  lemma SaleRow(rows: seq<Trade>, n: nat)
    requires n < |rows| && IsSale(rows, n)
    ensures Displayed(Book(rows[..n]), rows[n]).pnlSol == Some(Gain(rows, n))
  {
    hide Book, SellPnl, SoldCost, Basis;
    SaleFacts(rows, n, rows[n].mintFull.value);
  }

  lemma WinStep(rows: seq<Trade>, cutoffMs: int, n: nat)
    requires n < |rows|
    ensures |Wins(rows, cutoffMs, n + 1)|
            == |Wins(rows, cutoffMs, n)| + if Counted(rows, cutoffMs, n) && Gain(rows, n) >= 0.0 then 1 else 0
  {
    hide Counted, Gain;
    assert Wins(rows, cutoffMs, n + 1)
           == Wins(rows, cutoffMs, n) + if Counted(rows, cutoffMs, n) && Gain(rows, n) >= 0.0 then {n} else {};
  }

  lemma LossStep(rows: seq<Trade>, cutoffMs: int, n: nat)
    requires n < |rows|
    ensures |Losses(rows, cutoffMs, n + 1)|
            == |Losses(rows, cutoffMs, n)| + if Counted(rows, cutoffMs, n) && Gain(rows, n) < 0.0 then 1 else 0
  {
    hide Counted, Gain;
    assert Losses(rows, cutoffMs, n + 1)
           == Losses(rows, cutoffMs, n) + if Counted(rows, cutoffMs, n) && Gain(rows, n) < 0.0 then {n} else {};
  }

  lemma NoneCounted(rows: seq<Trade>, cutoffMs: int)
    ensures Wins(rows, cutoffMs, 0) == {} && Losses(rows, cutoffMs, 0) == {}
  {
  }

  lemma {:induction false} SummaryUpTo(rows: seq<Trade>, cutoffMs: int, n: nat)
    requires n <= |rows|
    ensures Summarise(DisplayedRows(rows[..n]), rows[..n], cutoffMs)
            == Summary(TotalGain(rows, cutoffMs, n), |Wins(rows, cutoffMs, n)| + |Losses(rows, cutoffMs, n)|,
                       |Wins(rows, cutoffMs, n)|, |Losses(rows, cutoffMs, n)|)
  {
    hide Counted, Gain, DisplayedRows, Summarise, Wins, Losses;
    if n == 0 {
      StartRows();
      StartSummary(cutoffMs);
      assert rows[..0] == [];
      NoneCounted(rows, cutoffMs);
    } else {
      SummaryUpTo(rows, cutoffMs, n - 1);
      SummaryStep(rows, cutoffMs, n - 1);
      WinStep(rows, cutoffMs, n - 1);
      LossStep(rows, cutoffMs, n - 1);
    }
  }

  /** Main result: the summary totals the gains of the counted rows, and its counters are their numbers by sign. */
  lemma SummaryLaw(trades: seq<Trade>, cutoffMs: int)
    ensures var rows := Sort(trades, Earlier);
            var s := Summarise(DisplayedRows(rows), rows, cutoffMs);
            && s.realizedPnlSol == TotalGain(rows, cutoffMs, |rows|)
            && s.wins == |Wins(rows, cutoffMs, |rows|)| && s.losses == |Losses(rows, cutoffMs, |rows|)|
            && s.tradeCount == s.wins + s.losses
  {
    var rows := Sort(trades, Earlier);
    SummaryUpTo(rows, cutoffMs, |rows|);
    assert rows[..|rows|] == rows;
  }
}
