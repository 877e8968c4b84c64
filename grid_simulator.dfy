/**
 * The grid simulator of scripts/january_simulation.py as a class: a fixed
 * table of twenty accounts (index k holds account number k + 1) updated in
 * place, and two append-only ledgers. Every method is proved to leave the
 * book exactly as the pure specification in GridModel says.
 */
module GridSimulator {
  import opened Optional
  import opened Market
  import opened GridModel

  class Simulator {
    const initialCapital: real
    const positionSize: int
    const cashPerTrade: real
    const accounts: array<Account>
    var trades: seq<Trade>
    var dailyResults: seq<DailyResult>

    ghost predicate Valid()
      reads this
    {
      accounts.Length == AccountCount
    }

    /** The abstract state: the account table as a sequence and both ledgers. */
    ghost function Snapshot(): Book
      reads this, accounts
    {
      Book(accounts[..], trades, dailyResults)
    }

    /** Twenty empty accounts holding `initialCapital / positionSize` each; the table size does not depend on `positionSize`. */
    constructor (initialCapital: real, positionSize: int)
      requires positionSize != 0
      ensures Valid() && fresh(accounts)
      ensures this.initialCapital == initialCapital && this.positionSize == positionSize
      ensures cashPerTrade == initialCapital / positionSize as real
      ensures Snapshot() == Book(InitialAccounts(initialCapital / positionSize as real), [], [])
    {
      var cpt := initialCapital / positionSize as real;
      this.initialCapital := initialCapital;
      this.positionSize := positionSize;
      cashPerTrade := cpt;
      accounts := new Account[AccountCount](_ => InitialAccount(cpt));
      trades := [];
      dailyResults := [];
    }

    /** Buys account `id` at `price` when it is empty; otherwise refuses and changes nothing. */
    method BuyAccount(id: nat, price: real, date: Date) returns (ok: bool)
      requires Valid() && 1 <= id <= AccountCount
      requires accounts[id - 1].status == Empty ==> price != 0.0
      modifies accounts, this`trades
      ensures Valid()
      ensures ok == (old(accounts[id - 1]).status == Empty)
      ensures ok ==> accounts[..] == old(accounts[..])[id - 1 := Bought(old(accounts[id - 1]), price)]
      ensures ok ==> trades == old(trades) + [BuyTrade(date, id, old(accounts[id - 1]), price)]
      ensures !ok ==> accounts[..] == old(accounts[..]) && trades == old(trades)
    {
      var account := accounts[id - 1];
      if account.status != Empty {
        return false;
      }
      var shares := account.cash / price;
      accounts[id - 1] := account.(shares := shares, avgPrice := price, status := Filled);
      trades := trades + [Trade(date, id, Buy, price, shares, account.cash)];
      return true;
    }

    /** Sells account `id` at `price` when it is filled; otherwise refuses and changes nothing. */
    method SellAccount(id: nat, price: real, date: Date) returns (ok: bool)
      requires Valid() && 1 <= id <= AccountCount
      modifies accounts, this`trades
      ensures Valid()
      ensures ok == (old(accounts[id - 1]).status == Filled)
      ensures ok ==> accounts[..] == old(accounts[..])[id - 1 := Sold(old(accounts[id - 1]), price)]
      ensures ok ==> trades == old(trades) + [SellTrade(date, id, old(accounts[id - 1]), price)]
      ensures !ok ==> accounts[..] == old(accounts[..]) && trades == old(trades)
    {
      var account := accounts[id - 1];
      if account.status != Filled {
        return false;
      }
      var shares := account.shares;
      var amount := shares * price;
      accounts[id - 1] := account.(cash := amount, shares := 0.0, avgPrice := 0.0, status := Empty);
      assert accounts[id - 1] == Sold(account, price);
      trades := trades + [Trade(date, id, Sell, price, shares, amount)];
      return true;
    }

    /** Buy burst: the k-th account that is empty at the start is bought at `open * 1.02 - step * k` when that is positive. */
    method ExecuteBuySequence(openPrice: real, step: real, date: Date)
      requires Valid()
      modifies accounts, this`trades
      ensures Valid()
      ensures Snapshot() == Burst(old(Snapshot()), openPrice, step, date)
    {
      ghost var s := accounts[..];
      var emptyIds := IdsWithStatus(accounts[..], Empty);
      if |emptyIds| == 0 {
        return;
      }
      var basePrice := openPrice * BuyPremium;
      var i := 0;
      while i < |emptyIds|
        invariant 0 <= i <= |emptyIds|
        invariant accounts[..] == BurstFold(s, emptyIds, i, openPrice, step)
        invariant trades == old(trades) + BurstTrades(s, emptyIds, i, openPrice, step, date)
      {
        var buyPrice := basePrice - step * i as real;
        assert buyPrice == BurstPrice(openPrice, step, i);
        BurstStep(s, i, openPrice, step, date);
        if buyPrice > 0.0 {
          var bought := BuyAccount(emptyIds[i], buyPrice, date);
        }
        i := i + 1;
      }
    }

    /** Sell sweep: every account filled at the start whose cost basis exceeds `open * (1 + rate)` is sold at `open * 0.99`. */
    method ExecuteSellCondition(openPrice: real, rate: real, date: Date)
      requires Valid()
      modifies accounts, this`trades
      ensures Valid()
      ensures Snapshot() == Sweep(old(Snapshot()), openPrice, rate, date)
    {
      ghost var s := accounts[..];
      var filledIds := IdsWithStatus(accounts[..], Filled);
      var sellPrice := openPrice * SellDiscount;
      var i := 0;
      while i < |filledIds|
        invariant 0 <= i <= |filledIds|
        invariant accounts[..] == SweepFold(s, filledIds, i, openPrice, rate)
        invariant trades == old(trades) + SweepTrades(s, filledIds, i, openPrice, rate, date)
      {
        SweepStep(s, i, openPrice, rate, date);
        var account := accounts[filledIds[i] - 1];
        if AboveSellLine(account.avgPrice, openPrice, rate) {
          var sold := SellAccount(filledIds[i], sellPrice, date);
        }
        i := i + 1;
      }
    }

    /** Appends the day's valuation of the current accounts at `closePrice`. */
    method RecordDailyResult(date: Date, closePrice: real)
      requires Valid() && initialCapital != 0.0
      modifies this`dailyResults
      ensures Valid()
      ensures Snapshot() == old(Snapshot()).(daily := old(dailyResults) + [Valuation(accounts[..], date, closePrice, initialCapital)])
    {
      var totalValue := 0.0;
      var filledCount := 0;
      var k := 0;
      while k < accounts.Length
        invariant 0 <= k <= accounts.Length
        invariant totalValue == TotalValue(accounts[..k], closePrice)
        invariant filledCount == |IdsWithStatus(accounts[..k], Filled)|
      {
        var account := accounts[k];
        if account.status == Filled {
          totalValue := totalValue + account.shares * closePrice;
          filledCount := filledCount + 1;
        } else {
          totalValue := totalValue + account.cash;
        }
        assert accounts[..k + 1][..k] == accounts[..k];
        k := k + 1;
      }
      assert accounts[..k] == accounts[..];
      dailyResults := dailyResults + [DailyResult(date, closePrice, totalValue, filledCount, AccountCount - filledCount,
                                                  (totalValue - initialCapital) / initialCapital * 100.0)];
    }

    /** Runs the windowed bars in order and returns both ledgers. */
    method ExecuteTrading(bars: seq<Bar>) returns (tradeLog: seq<Trade>, results: seq<DailyResult>)
      requires Valid() && initialCapital != 0.0
      modifies accounts, this`trades, this`dailyResults
      ensures Valid()
      ensures Snapshot() == RunFrom(old(Snapshot()), bars, |bars|, initialCapital)
      ensures tradeLog == trades && results == dailyResults
    {
      var i := 0;
      while i < |bars|
        invariant 0 <= i <= |bars|
        invariant Snapshot() == RunFrom(old(Snapshot()), bars, i, initialCapital)
      {
        var bar := bars[i];
        if bar.ma60.None? {
          i := i + 1;
          continue;
        }
        var ma60 := bar.ma60.value;
        var prevClose := if i > 0 then bars[i - 1].close else SeedPrevClose;
        var step := CalculateStep(prevClose);
        ghost var before := Snapshot();
        ghost var sig := Evaluate(ma60, prevClose);
        if ma60 > prevClose {
          if prevClose > ma60 * UpBand {
            ExecuteBuySequence(bar.open, step, bar.date);
          }
          assert Snapshot() == if sig.buy then Burst(before, bar.open, step, bar.date) else before;
          ExecuteSellCondition(bar.open, UpThreshold, bar.date);
        } else {
          if prevClose < ma60 * DownBand {
            ExecuteBuySequence(bar.open, step, bar.date);
          }
          assert Snapshot() == if sig.buy then Burst(before, bar.open, step, bar.date) else before;
          ExecuteSellCondition(bar.open, DownThreshold, bar.date);
        }
        ghost var swept := Snapshot();
        RecordDailyResult(bar.date, bar.close);
        assert Snapshot() == swept.(daily := swept.daily + [Valuation(swept.accounts, bar.date, bar.close, initialCapital)]);
        assert Snapshot() == Day(before, bar, PrevClose(bars, i), initialCapital);
        i := i + 1;
      }
      return trades, dailyResults;
    }
  }
}
