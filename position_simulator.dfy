/**
 * The single-position simulator of scripts/trading_simulator.py: the signal
 * pass over the price table, and a class holding the cash, the share count
 * and the three ledgers that the trading loop updates in place. Each method
 * is proved to compute exactly what module PositionModel specifies.
 */
module PositionSimulator {
  import opened Optional
  import opened Market
  import opened PositionModel

  /**
   * Writes the signal column row by row, from the first row after the
   * warm-up: a buy where the close is in the buy band and the previous row
   * is not a buy, otherwise a sell where it is in the sell band and the
   * previous row is not a sell; every other row stays silent.
   */
  method CalculateSignals(rows: seq<Row>) returns (signal: seq<int>)
    ensures signal == Signals(rows, |rows|)
    ensures |signal| == |rows|
    ensures forall i :: 1 <= i < |signal| && signal[i] != 0 ==> signal[i] != signal[i - 1]
  {
    var column := new int[|rows|](_ => 0);
    if |rows| <= WarmUp {
      SignalsWarmUp(rows, |rows|);
      signal := column[..];
      SignalsNoRepeat(rows);
      return;
    }
    SignalsWarmUp(rows, WarmUp);
    var i := WarmUp;
    while i < |rows|
      invariant WarmUp <= i <= |rows|
      invariant column[..i] == Signals(rows, i)
      invariant forall k :: i <= k < |rows| ==> column[k] == 0
    {
      var price := rows[i].close;
      if rows[i].ma60.None? {
        assert column[..i + 1] == column[..i] + [0];
        i := i + 1;
        continue;
      }
      var ma60 := rows[i].ma60.value;
      var buyBand: bool;
      var sellBand: bool;
      if ma60 == 0.0 {
        buyBand, sellBand := price > 0.0, price < 0.0;
      } else {
        var ratio := (price - ma60) / ma60 * 100.0;
        buyBand, sellBand := ratio >= BuyBandPct, ratio <= SellBandPct;
      }
      assert buyBand == AboveBuyBand(price, ma60) && sellBand == BelowSellBand(price, ma60);
      assert column[i - 1] == Signals(rows, i)[i - 1];
      if buyBand && column[i - 1] != 1 {
        column[i] := 1;
      } else if sellBand && column[i - 1] != -1 {
        column[i] := -1;
      }
      assert column[..i + 1] == column[..i] + [column[i]];
      i := i + 1;
    }
    signal := column[..];
    assert signal == column[..i];
    SignalsNoRepeat(rows);
  }

  class Simulator {
    const initialCapital: real
    const positionSize: int
    const cashPerTrade: real
    var cash: real
    var totalShares: real
    var trades: seq<Trade>
    var portfolioValue: seq<real>
    var dates: seq<Date>

    /** The abstract state: cash, holding and the three ledgers. */
    ghost function Snapshot(): Portfolio
      reads this
    {
      Portfolio(cash, totalShares, trades, portfolioValue, dates)
    }

    /** All capital in cash, split into `positionSize` tranches of `initialCapital / positionSize`. */
    constructor (initialCapital: real, positionSize: int)
      requires positionSize != 0
      ensures this.initialCapital == initialCapital && this.positionSize == positionSize
      ensures cashPerTrade == initialCapital / positionSize as real
      ensures Snapshot() == InitialPortfolio(initialCapital)
    {
      this.initialCapital := initialCapital;
      this.positionSize := positionSize;
      cashPerTrade := initialCapital / positionSize as real;
      trades := [];
      portfolioValue := [];
      dates := [];
      cash := initialCapital;
      totalShares := 0.0;
    }

    /**
     * One pass of the trading loop: records the day's value and date, then
     * buys one tranche on a buy signal when a tranche of cash is left, or
     * sells the whole holding on a sell signal when shares are held.
     */
    method TradeRow(row: Row, signal: int)
      requires BuysOn(Snapshot(), signal, cashPerTrade) ==> row.close != 0.0
      modifies this
      ensures Snapshot() == StepRow(old(Snapshot()), row, signal, cashPerTrade)
    {
      ghost var before := Snapshot();
      var currentDate := row.date;
      var currentPrice := row.close;
      portfolioValue := portfolioValue + [cash + totalShares * currentPrice];
      dates := dates + [currentDate];
      assert portfolioValue == before.values + [MarkToMarket(before, row.close)];
      if signal == 1 && cash >= cashPerTrade {
        var sharesToBuy := cashPerTrade / currentPrice;
        totalShares := totalShares + sharesToBuy;
        cash := cash - cashPerTrade;
        trades := trades + [Trade(currentDate, Buy, currentPrice, sharesToBuy, cashPerTrade, cash, totalShares)];
      } else if signal == -1 && totalShares > 0.0 {
        var sellAmount := totalShares * currentPrice;
        cash := cash + sellAmount;
        trades := trades + [Trade(currentDate, Sell, currentPrice, totalShares, sellAmount, cash, 0.0)];
        totalShares := 0.0;
      }
      ghost var expected := StepRow(before, row, signal, cashPerTrade);
      assert expected.values == portfolioValue;
      assert expected.cash == cash && expected.totalShares == totalShares && expected.trades == trades;
    }

    /** Runs the trading loop over every row in order and returns the trade ledger. */
    method ExecuteTrading(rows: seq<Row>, signals: seq<int>) returns (allTrades: seq<Trade>)
      requires |signals| == |rows| && BuyPricesNonzero(rows, signals)
      modifies this
      ensures Snapshot() == Run(old(Snapshot()), rows, signals, |rows|, cashPerTrade)
      ensures allTrades == trades
    {
      for i := 0 to |rows|
        invariant Snapshot() == Run(old(Snapshot()), rows, signals, i, cashPerTrade)
      {
        TradeRow(rows[i], signals[i]);
      }
      allTrades := trades;
    }

    /**
     * The performance summary: nothing before the first recorded day;
     * otherwise the final value, the return, the maximum drawdown from the
     * running peak, the trade counts and the final position.
     */
    method CalculatePerformance() returns (perf: Option<Performance>)
      requires initialCapital > 0.0
      ensures perf == Summary(initialCapital, Snapshot())
    {
      if portfolioValue == [] {
        return None;
      }
      var initialValue := initialCapital;
      var finalValue := portfolioValue[|portfolioValue| - 1];
      var totalReturn := TotalReturnPct(initialValue, finalValue);
      var peak := initialValue;
      var maxDrawdown := 0.0;
      for i := 0 to |portfolioValue|
        invariant peak == Peak(initialValue, portfolioValue, i)
        invariant maxDrawdown == MaxDrawdown(initialValue, portfolioValue, i)
      {
        PeakStep(initialValue, portfolioValue, i, peak);
        var value := portfolioValue[i];
        if value > peak {
          peak := value;
        }
        var drawdown := (peak - value) / peak * 100.0;
        MaxDrawdownStep(initialValue, portfolioValue, i, peak, maxDrawdown);
        if drawdown > maxDrawdown {
          maxDrawdown := drawdown;
        }
      }
      SummaryFields(initialCapital, Snapshot());
      perf := Some(Performance(initialValue, finalValue, totalReturn, maxDrawdown, |trades|,
                               CountAction(trades, Buy), CountAction(trades, Sell), cash, totalShares));
    }
  }
}
