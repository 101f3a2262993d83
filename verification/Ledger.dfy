/**
 The average-cost ledger of the trade history server (scripts/trades_server.py:608-650, 661-744), in
 exact reals without the final rounding. Both passes sort by time and walk one position per mint.
 */
module Ledger {
  import opened Wrappers
  import opened Reals
  import opened Sorting

  datatype Trade = Trade(
    timestampMs: int, action: string, mintFull: Option<string>, amountTokens: Option<real>,
    valueSol: Option<real>, walletSolDelta: Option<real>, pnlSol: Option<real>, pnlPct: Option<real>)

  datatype Position = Position(tokens: real, costSol: real)

  type Positions = map<string, Position>

  predicate Earlier(a: Trade, b: Trade) {
    a.timestampMs <= b.timestampMs
  }

  /** Python falsiness of the fields a position needs. */
  predicate Skipped(t: Trade) {
    || t.mintFull.None? || t.mintFull.value == "" || t.mintFull.value == "-"
    || t.amountTokens.None? || t.amountTokens.value == 0.0
  }

  /** What a purchase cost, if known and positive: the fill, else the size of the wallet change. */
  function BuyCost(t: Trade): Option<real> {
    if t.valueSol.Some? && t.valueSol.value > 0.0 then t.valueSol
    else if t.walletSolDelta.Some? && t.walletSolDelta.value != 0.0 then Some(Abs(t.walletSolDelta.value))
    else None
  }

  function Proceeds(t: Trade): real {
    if t.valueSol.Some? && t.valueSol.value > 0.0 then t.valueSol.value
    else if t.walletSolDelta.Some? && t.walletSolDelta.value > 0.0 then t.walletSolDelta.value
    else 0.0
  }

  predicate IsBuy(t: Trade) {
    !Skipped(t) && t.action == "BUY" && BuyCost(t).Some?
  }

  /** A sale out of an open position; only these realise a profit or loss. */
  predicate IsRealised(positions: Positions, t: Trade) {
    && !Skipped(t) && t.action == "SELL"
    && t.mintFull.value in positions && positions[t.mintFull.value].tokens > 0.0
  }

  predicate IsArbitrage(t: Trade) {
    Skipped(t) && t.action == "ARBITRAGE"
  }

  function SoldCost(pos: Position, amount: real): real
    requires pos.tokens != 0.0
  {
    pos.costSol / pos.tokens * amount
  }

  function SellPnl(positions: Positions, t: Trade): real
    requires IsRealised(positions, t)
  {
    Proceeds(t) - SoldCost(positions[t.mintFull.value], t.amountTokens.value)
  }

  function AfterSell(pos: Position, amount: real): Position
    requires pos.tokens != 0.0
  {
    Position(Max(0.0, pos.tokens - amount), Max(0.0, pos.costSol - SoldCost(pos, amount)))
  }

  function AfterTrade(positions: Positions, t: Trade): Positions {
    if IsBuy(t) then
      var m := t.mintFull.value;
      var pos := if m in positions then positions[m] else Position(0.0, 0.0);
      positions[m := Position(pos.tokens + t.amountTokens.value, pos.costSol + BuyCost(t).value)]
    else if IsRealised(positions, t) then
      var m := t.mintFull.value;
      positions[m := AfterSell(positions[m], t.amountTokens.value)]
    else positions
  }

  /** The positions after walking `rows` in order. */
  function Book(rows: seq<Trade>): Positions {
    if rows == [] then map[] else AfterTrade(Book(rows[..|rows| - 1]), rows[|rows| - 1])
  }

  /** The row as the trades endpoint shows it. */
  function Displayed(positions: Positions, t: Trade): Trade {
    if IsBuy(t) then t.(pnlSol := Some(0.0), pnlPct := None)
    else if IsRealised(positions, t) then
      var pnl := SellPnl(positions, t);
      var sold := SoldCost(positions[t.mintFull.value], t.amountTokens.value);
      t.(pnlSol := Some(pnl), pnlPct := if sold > 0.0 then Some(pnl / sold * 100.0) else None)
    else if !Skipped(t) && t.action == "SELL" then t.(pnlSol := None, pnlPct := None)
    else t
  }

  function DisplayedRows(rows: seq<Trade>): (r: seq<Trade>)
    ensures |r| == |rows|
  {
    if rows == [] then []
    else DisplayedRows(rows[..|rows| - 1]) + [Displayed(Book(rows[..|rows| - 1]), rows[|rows| - 1])]
  }

  lemma StartRows()
    ensures DisplayedRows([]) == [] && Book([]) == map[]
  {
  }

  /** Overwriting the first row not yet processed. */
  lemma ReplaceFirst(done: seq<Trade>, rows: seq<Trade>, i: nat, row: Trade)
    requires |done| == i < |rows|
    ensures (done + rows[i..])[i] == rows[i]
    ensures (done + rows[i..])[i := row] == done + [row] + rows[i + 1..]
  {
  }

  lemma NextRow(rows: seq<Trade>, i: nat)
    requires i < |rows|
    ensures DisplayedRows(rows[..i + 1]) == DisplayedRows(rows[..i]) + [Displayed(Book(rows[..i]), rows[i])]
    ensures Book(rows[..i + 1]) == AfterTrade(Book(rows[..i]), rows[i])
  {
    hide AfterTrade, Displayed;
    assert rows[..i + 1][..i] == rows[..i];
  }

  /** The list after its first `i` rows were processed. */
  ghost predicate Walked(rows: seq<Trade>, i: nat, trades: seq<Trade>, positions: Positions)
    requires i <= |rows|
  {
    trades == DisplayedRows(rows[..i]) + rows[i..] && positions == Book(rows[..i])
  }

  lemma FirstStep(rows: seq<Trade>)
    ensures Walked(rows, 0, rows, map[])
  {
    StartRows();
    assert rows[..0] == [];
  }

  lemma LastStep(rows: seq<Trade>, trades: seq<Trade>, positions: Positions)
    requires Walked(rows, |rows|, trades, positions)
    ensures trades == DisplayedRows(rows)
  {
    assert rows[..|rows|] == rows;
  }

  lemma RowStep(rows: seq<Trade>, i: nat, trades: seq<Trade>, positions: Positions)
    requires i < |rows| && Walked(rows, i, trades, positions)
    ensures |trades| == |rows| && trades[i] == rows[i]
    ensures Walked(rows, i + 1, trades[i := Displayed(positions, rows[i])], AfterTrade(positions, rows[i]))
  {
    hide AfterTrade, Displayed, Book;
    NextRow(rows, i);
    ReplaceFirst(DisplayedRows(rows[..i]), rows, i, Displayed(positions, rows[i]));
  }

  // ----- The running pass, on the list it mutates -----

  class TradeHistory {
    var trades: seq<Trade>

    constructor (trades: seq<Trade>)
      ensures this.trades == trades
    {
      this.trades := trades;
    }

    method ComputeRunningPnl()
      modifies this
      ensures trades == DisplayedRows(Sort(old(trades), Earlier))
    {
      hide AfterTrade, Displayed, DisplayedRows, Book, Sort, Walked;
      trades := Sort(trades, Earlier);
      ghost var rows := trades;
      var positions: Positions := map[];
      FirstStep(rows);
      for i := 0 to |trades|
        invariant Walked(rows, i, trades, positions)
      {
        RowStep(rows, i, trades, positions);
        var row;
        positions, row := RunTrade(positions, trades[i]);
        trades := trades[i := row];
      }
      LastStep(rows, trades, positions);
    }

    static method RunTrade(positions: Positions, t: Trade) returns (positions': Positions, row: Trade)
      ensures positions' == AfterTrade(positions, t) && row == Displayed(positions, t)
    {
      positions', row := positions, t;
      if Skipped(t) {
        return;
      }
      var m, amount := t.mintFull.value, t.amountTokens.value;
      if t.action == "BUY" {
        var cost := BuyCost(t);
        if cost.None? {
          return;
        }
        var pos := if m in positions then positions[m] else Position(0.0, 0.0);
        positions' := positions[m := Position(pos.tokens + amount, pos.costSol + cost.value)];
        row := t.(pnlSol := Some(0.0), pnlPct := None);
      } else if t.action == "SELL" {
        if m in positions && positions[m].tokens > 0.0 {
          var pos := positions[m];
          var sold := SoldCost(pos, amount);
          var pnl := Proceeds(t) - sold;
          positions' := positions[m := AfterSell(pos, amount)];
          row := t.(pnlSol := Some(pnl), pnlPct := if sold > 0.0 then Some(pnl / sold * 100.0) else None);
        } else {
          row := t.(pnlSol := None, pnlPct := None);
        }
      }
    }
  }

  // ----- Conservation -----

  /** The amounts of the rows are not negative; zero amounts are skipped by the code. */
  ghost predicate PositiveAmounts(rows: seq<Trade>) {
    forall i :: 0 <= i < |rows| && rows[i].amountTokens.Some? ==> rows[i].amountTokens.value >= 0.0
  }

  ghost function At(positions: Positions, m: string): Position {
    if m in positions then positions[m] else Position(0.0, 0.0)
  }

  /** Total cost of the purchases of `m`. */
  ghost function Bought(rows: seq<Trade>, m: string): real {
    if rows == [] then 0.0
    else
      var t := rows[|rows| - 1];
      Bought(rows[..|rows| - 1], m) + if IsBuy(t) && t.mintFull.value == m then BuyCost(t).value else 0.0
  }

  ghost predicate SellsAt(rows: seq<Trade>, i: int, m: string) {
    0 <= i < |rows| && IsRealised(Book(rows[..i]), rows[i]) && rows[i].mintFull.value == m
  }

  /** Total cost basis charged to the realised sales of `m`. */
  ghost function Charged(rows: seq<Trade>, m: string): real {
    if rows == [] then 0.0
    else
      var i := |rows| - 1;
      Charged(rows[..i], m)
      + if SellsAt(rows, i, m) then SoldCost(At(Book(rows[..i]), m), rows[i].amountTokens.value) else 0.0
  }

  /** What sales of more than the position held were charged beyond its cost. */
  ghost function Overcharged(rows: seq<Trade>, m: string): real {
    if rows == [] then 0.0
    else
      var i := |rows| - 1;
      var pos := At(Book(rows[..i]), m);
      Overcharged(rows[..i], m)
      + if SellsAt(rows, i, m) then Max(0.0, SoldCost(pos, rows[i].amountTokens.value) - pos.costSol) else 0.0
  }

  /** A position is either empty in both respects or positive in both. */
  ghost predicate Sound(pos: Position) {
    (pos.tokens == 0.0 && pos.costSol == 0.0) || (pos.tokens > 0.0 && pos.costSol > 0.0)
  }

  /** The arithmetic of one sale. */
  lemma SellMath(tokens: real, cost: real, amount: real)
    requires tokens > 0.0 && cost > 0.0 && amount > 0.0
    ensures var sold := cost / tokens * amount;
            && (amount < tokens <==> sold < cost) && (amount == tokens <==> sold == cost)
  {
    var avg := cost / tokens;
    assert avg > 0.0 && avg * tokens == cost;
    if amount < tokens {
      assert avg * (tokens - amount) > 0.0;
    } else {
      assert avg * (amount - tokens) >= 0.0;
      if amount > tokens {
        assert avg * (amount - tokens) > 0.0;
      }
    }
  }

  lemma SellKeepsSound(pos: Position, amount: real)
    requires Sound(pos) && pos.tokens > 0.0 && amount > 0.0
    ensures Sound(AfterSell(pos, amount))
    ensures AfterSell(pos, amount).tokens == 0.0 <==> amount >= pos.tokens
    ensures Max(0.0, SoldCost(pos, amount) - pos.costSol) > 0.0 <==> amount > pos.tokens
  {
    SellMath(pos.tokens, pos.costSol, amount);
  }

  /** A partial sale leaves the average cost unchanged. */
  lemma PartialSellKeepsAverage(pos: Position, amount: real)
    requires Sound(pos) && 0.0 < amount < pos.tokens
    ensures var after := AfterSell(pos, amount);
            after.tokens > 0.0 && after.costSol / after.tokens == pos.costSol / pos.tokens
  {
    SellMath(pos.tokens, pos.costSol, amount);
    var avg, left := pos.costSol / pos.tokens, pos.tokens - amount;
    var after := AfterSell(pos, amount);
    assert after.tokens == left && after.costSol == pos.costSol - avg * amount;
    assert avg * left == avg * pos.tokens - avg * amount;
    DivideBack(avg, left);
  }

  lemma DivideBack(avg: real, left: real)
    requires left > 0.0
    ensures (avg * left) / left == avg
  {
  }

  /** On every trade sequence: in each position, zero tokens means zero cost and conversely. */
  lemma {:induction false} EveryPositionSound(rows: seq<Trade>, m: string)
    requires PositiveAmounts(rows)
    ensures Sound(At(Book(rows), m))
  {
    hide SoldCost, AfterSell;
    if rows != [] {
      var init, t := rows[..|rows| - 1], rows[|rows| - 1];
      EveryPositionSound(init, m);
      if IsRealised(Book(init), t) && t.mintFull.value == m {
        SellKeepsSound(At(Book(init), m), t.amountTokens.value);
      }
    }
  }

  /** Conservation, exactly: purchases plus overcharges equal what remains plus what sales were charged. */
  lemma {:induction false} Conservation(rows: seq<Trade>, m: string)
    requires PositiveAmounts(rows)
    ensures Bought(rows, m) + Overcharged(rows, m) == At(Book(rows), m).costSol + Charged(rows, m)
    ensures Overcharged(rows, m) >= 0.0
  {
    hide SoldCost;
    if rows != [] {
      var i := |rows| - 1;
      Conservation(rows[..i], m);
    }
  }

  /** The sale at `i` sold more of `m` than the position held. */
  ghost predicate OversoldAt(rows: seq<Trade>, i: int, m: string) {
    SellsAt(rows, i, m) && rows[i].amountTokens.value > At(Book(rows[..i]), m).tokens
  }

  lemma {:induction false} OverchargedIffOversold(rows: seq<Trade>, m: string)
    requires PositiveAmounts(rows)
    ensures Overcharged(rows, m) >= 0.0
    ensures Overcharged(rows, m) > 0.0 <==> exists i :: OversoldAt(rows, i, m)
  {
    hide SoldCost, AfterSell, AfterTrade;
    if rows != [] {
      var n := |rows| - 1;
      var init := rows[..n];
      OverchargedIffOversold(init, m);
      EveryPositionSound(init, m);
      assert forall i :: 0 <= i < n ==> init[..i] == rows[..i] && init[i] == rows[i];
      assert forall i :: 0 <= i < n ==> (OversoldAt(init, i, m) <==> OversoldAt(rows, i, m));
      if SellsAt(rows, n, m) {
        SellKeepsSound(At(Book(init), m), rows[n].amountTokens.value);
      }
      if i :| OversoldAt(rows, i, m) {
        assert i < n ==> OversoldAt(init, i, m);
      }
      if Overcharged(init, m) > 0.0 {
        var i :| OversoldAt(init, i, m);
        assert OversoldAt(rows, i, m);
      } else if Overcharged(rows, m) > 0.0 {
        assert OversoldAt(rows, n, m);
      }
    }
  }

  /** Main result: cost is conserved for a mint exactly if none of its realised sales exceeded the holdings. */
  lemma ConservedIffNoOversell(rows: seq<Trade>, m: string)
    requires PositiveAmounts(rows)
    ensures Bought(rows, m) == At(Book(rows), m).costSol + Charged(rows, m)
            <==> forall i :: SellsAt(rows, i, m) ==> rows[i].amountTokens.value <= At(Book(rows[..i]), m).tokens
  {
    Conservation(rows, m);
    OverchargedIffOversold(rows, m);
    hide Bought, Charged, Overcharged, Book, SellsAt;
    if forall i :: SellsAt(rows, i, m) ==> rows[i].amountTokens.value <= At(Book(rows[..i]), m).tokens {
      assert forall i :: !OversoldAt(rows, i, m);
    } else {
      var i :| SellsAt(rows, i, m) && rows[i].amountTokens.value > At(Book(rows[..i]), m).tokens;
      assert OversoldAt(rows, i, m);
    }
  }

  /** Buying one token for `cost` and selling two: twice the cost is charged, and the surplus is one more cost. */
  lemma OversellCreatesCost(m: string, cost: real)
    requires m != "" && m != "-" && cost > 0.0
    ensures var buy := Trade(0, "BUY", Some(m), Some(1.0), Some(cost), None, None, None);
            var sell := Trade(1, "SELL", Some(m), Some(2.0), Some(cost), None, None, None);
            var rows := [buy, sell];
            && PositiveAmounts(rows) && Bought(rows, m) == cost && At(Book(rows), m) == Position(0.0, 0.0)
            && Charged(rows, m) == 2.0 * cost && Overcharged(rows, m) == cost
  {
    var buy := Trade(0, "BUY", Some(m), Some(1.0), Some(cost), None, None, None);
    var sell := Trade(1, "SELL", Some(m), Some(2.0), Some(cost), None, None, None);
    var rows := [buy, sell];
    assert rows[..1] == [buy] && [buy][..0] == [];
    assert Book([buy]) == map[m := Position(1.0, cost)];
    assert SoldCost(Position(1.0, cost), 2.0) == 2.0 * cost;
    assert SellsAt(rows, 1, m) && !SellsAt([buy], 0, m);
    assert Bought([], m) == 0.0 && Bought([buy], m) == cost;
    OnePurchase(buy, m);
  }

  lemma OnePurchase(buy: Trade, m: string)
    requires buy.action == "BUY"
    ensures Charged([buy], m) == 0.0 && Overcharged([buy], m) == 0.0
  {
    assert [buy][..0] == [];
    assert !SellsAt([buy], 0, m);
    assert Charged([], m) == 0.0 && Overcharged([], m) == 0.0;
  }

  // ----- The 24h summary -----

  datatype Summary = Summary(realizedPnlSol: real, tradeCount: nat, wins: nat, losses: nat) {
    function Count(pnl: real): Summary {
      Summary(realizedPnlSol + pnl, tradeCount + 1, if pnl >= 0.0 then wins + 1 else wins,
              if pnl >= 0.0 then losses else losses + 1)
    }
  }

  /** Walks the sorted trades; positions are built from all of them, only those after the cutoff count. */
  method ComputePnl24h(trades: seq<Trade>, cutoffMs: int) returns (s: Summary)
    ensures s == Summarise(DisplayedRows(Sort(trades, Earlier)), Sort(trades, Earlier), cutoffMs)
  {
    s := Summary(0.0, 0, 0, 0);
    var rows := Sort(trades, Earlier);
    var positions: Positions := map[];
    hide AfterTrade, Book, DisplayedRows, Displayed, Summarise, Sort;
    StartRows();
    StartSummary(cutoffMs);
    for i := 0 to |rows|
      invariant positions == Book(rows[..i]) && s == Summarise(DisplayedRows(rows[..i]), rows[..i], cutoffMs)
    {
      NextRow(rows, i);
      NextSummary(rows, i, cutoffMs);
      positions, s := CountTrade(positions, rows[i], cutoffMs, s);
    }
    assert rows[..|rows|] == rows;
  }

  method CountTrade(positions: Positions, t: Trade, cutoffMs: int, before: Summary)
    returns (positions': Positions, s: Summary)
    ensures positions' == AfterTrade(positions, t)
    ensures s == CountRow(before, Displayed(positions, t), t, IsRealised(positions, t), cutoffMs)
  {
    positions', s := positions, before;
    if Skipped(t) {
      if t.action == "ARBITRAGE" && t.timestampMs >= cutoffMs {
        s := s.Count(if t.pnlSol.Some? then t.pnlSol.value else 0.0);
      }
      return;
    }
    var m, amount := t.mintFull.value, t.amountTokens.value;
    if t.action == "BUY" {
      var cost := BuyCost(t);
      if cost.Some? {
        var pos := if m in positions then positions[m] else Position(0.0, 0.0);
        positions' := positions[m := Position(pos.tokens + amount, pos.costSol + cost.value)];
      }
    } else if t.action == "SELL" {
      if m in positions && positions[m].tokens > 0.0 {
        var pos := positions[m];
        var pnl := Proceeds(t) - SoldCost(pos, amount);
        positions' := positions[m := AfterSell(pos, amount)];
        if t.timestampMs >= cutoffMs {
          s := s.Count(pnl);
        }
      }
    }
  }

  /** How one row enters the summary: realised sales with the profit the trades endpoint shows for them. */
  function CountRow(s: Summary, shown: Trade, t: Trade, realised: bool, cutoffMs: int): Summary {
    if t.timestampMs < cutoffMs then s
    else if realised then s.Count(if shown.pnlSol.Some? then shown.pnlSol.value else 0.0)
    else if IsArbitrage(t) then s.Count(if t.pnlSol.Some? then t.pnlSol.value else 0.0)
    else s
  }

  /** The summary read off the rows the trades endpoint displays. */
  function Summarise(shown: seq<Trade>, rows: seq<Trade>, cutoffMs: int): Summary
    requires |shown| == |rows|
  {
    if rows == [] then Summary(0.0, 0, 0, 0)
    else
      var i := |rows| - 1;
      CountRow(Summarise(shown[..i], rows[..i], cutoffMs), shown[i], rows[i], IsRealised(Book(rows[..i]), rows[i]), cutoffMs)
  }

  lemma StartSummary(cutoffMs: int)
    ensures Summarise([], [], cutoffMs) == Summary(0.0, 0, 0, 0)
  {
  }

  lemma NextSummary(rows: seq<Trade>, i: nat, cutoffMs: int)
    requires i < |rows|
    ensures Summarise(DisplayedRows(rows[..i + 1]), rows[..i + 1], cutoffMs)
            == CountRow(Summarise(DisplayedRows(rows[..i]), rows[..i], cutoffMs), Displayed(Book(rows[..i]), rows[i]),
                        rows[i], IsRealised(Book(rows[..i]), rows[i]), cutoffMs)
  {
    hide AfterTrade, Displayed, CountRow, IsRealised;
    NextRow(rows, i);
    assert rows[..i + 1][..i] == rows[..i];
    assert DisplayedRows(rows[..i + 1])[..i] == DisplayedRows(rows[..i]);
  }

  ghost function RealisedTotal(shown: seq<Trade>, rows: seq<Trade>): real
    requires |shown| == |rows|
  {
    if rows == [] then 0.0
    else
      var i := |rows| - 1;
      RealisedTotal(shown[..i], rows[..i])
      + if IsRealised(Book(rows[..i]), rows[i]) && shown[i].pnlSol.Some? then shown[i].pnlSol.value else 0.0
  }

  ghost function ArbitrageTotal(rows: seq<Trade>): real {
    if rows == [] then 0.0
    else
      var t := rows[|rows| - 1];
      ArbitrageTotal(rows[..|rows| - 1]) + if IsArbitrage(t) && t.pnlSol.Some? then t.pnlSol.value else 0.0
  }

  /** Main result: wins and losses add up to the count, and with a cutoff before every trade the summary
      is the sum of the realised profits the trades endpoint displays, plus the arbitrage rows. */
  lemma {:induction false} SummaryAgreesWithDisplay(shown: seq<Trade>, rows: seq<Trade>, cutoffMs: int)
    requires |shown| == |rows|
    ensures var s := Summarise(shown, rows, cutoffMs);
            && s.wins + s.losses == s.tradeCount
            && ((forall i :: 0 <= i < |rows| ==> rows[i].timestampMs >= cutoffMs) ==>
                  s.realizedPnlSol == RealisedTotal(shown, rows) + ArbitrageTotal(rows))
  {
    hide Book;
    if rows != [] {
      var i := |rows| - 1;
      SummaryAgreesWithDisplay(shown[..i], rows[..i], cutoffMs);
      if forall k :: 0 <= k < |rows| ==> rows[k].timestampMs >= cutoffMs {
        assert forall k :: 0 <= k < i ==> rows[..i][k] == rows[k];
      }
    }
  }

  /** Every realised sale is displayed with a profit: proceeds minus the average cost of what was sold. */
  lemma RealisedIsDisplayed(rows: seq<Trade>, i: nat)
    requires i < |rows| && IsRealised(Book(rows[..i]), rows[i])
    ensures DisplayedRows(rows)[i].pnlSol == Some(SellPnl(Book(rows[..i]), rows[i]))
  {
    DisplayedAt(rows, i, |rows|);
    assert rows[..|rows|] == rows;
  }

  lemma {:induction false} DisplayedAt(rows: seq<Trade>, i: nat, n: nat)
    requires i < n <= |rows|
    ensures DisplayedRows(rows[..n])[i] == Displayed(Book(rows[..i]), rows[i])
  {
    NextRow(rows, n - 1);
    if i < n - 1 {
      DisplayedAt(rows, i, n - 1);
    }
  }
}
