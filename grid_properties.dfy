/**
 * Properties of the grid strategy, proved about the specification in
 * GridModel (and so, through the simulator's postconditions, about the
 * class in GridSimulator).
 */
module GridProperties {
  import opened Optional
  import opened Market
  import opened GridModel

  // ---------------------------------------------------------------------
  // The ledgers written by one burst and one sweep
  // ---------------------------------------------------------------------

  /** Trades listed in strictly ascending account order. */
  predicate AccountsAscending(trades: seq<Trade>) {
    forall x, y :: 0 <= x < y < |trades| ==> trades[x].account < trades[y].account
  }

  /** Account `id` is among the first `n` listed. */
  predicate ListedBefore(ids: seq<nat>, n: nat, id: nat)
    requires n <= |ids|
  {
    exists u :: 0 <= u < n && ids[u] == id
  }

  /** Every trade is the BUY of one of the first `n` listed accounts, at a positive price. */
  predicate BuysOfListed(s: seq<Account>, ids: seq<nat>, n: nat, date: Date, trades: seq<Trade>)
    requires n <= |ids|
  {
    forall x :: 0 <= x < |trades| ==>
      ListedBefore(ids, n, trades[x].account) && 1 <= trades[x].account <= |s| && trades[x].price > 0.0 &&
      trades[x] == BuyTrade(date, trades[x].account, s[trades[x].account - 1], trades[x].price)
  }

  /** A trade for the t-th listed account is at the t-th staggered price. */
  predicate PricedByPosition(ids: seq<nat>, n: nat, openPrice: real, step: real, trades: seq<Trade>)
    requires n <= |ids|
  {
    forall x, t :: 0 <= x < |trades| && 0 <= t < n && trades[x].account == ids[t] ==>
      trades[x].price == BurstPrice(openPrice, step, t)
  }

  /** Every one of the first `n` listed accounts whose staggered price is positive has its BUY trade. */
  predicate BuysComplete(s: seq<Account>, ids: seq<nat>, n: nat, openPrice: real, step: real, date: Date, trades: seq<Trade>)
    requires n <= |ids|
    requires forall t :: 0 <= t < |ids| ==> 1 <= ids[t] <= |s|
  {
    forall t :: 0 <= t < n && BurstPrice(openPrice, step, t) > 0.0 ==>
      BuyTrade(date, ids[t], s[ids[t] - 1], BurstPrice(openPrice, step, t)) in trades
  }

  /** A burst over the first `n` listed accounts: every BUY trade names one of them, at a positive price. */
  lemma {:induction false} BurstTradesListed(s: seq<Account>, ids: seq<nat>, n: nat, openPrice: real, step: real, date: Date)
    requires n <= |ids|
    requires forall t :: 0 <= t < |ids| ==> 1 <= ids[t] <= |s|
    ensures BuysOfListed(s, ids, n, date, BurstTrades(s, ids, n, openPrice, step, date))
    decreases n
  {
    if n > 0 {
      var k := n - 1;
      BurstTradesListed(s, ids, k, openPrice, step, date);
      var before := BurstTrades(s, ids, k, openPrice, step, date);
      var trades := BurstTrades(s, ids, n, openPrice, step, date);
      forall x | 0 <= x < |trades|
        ensures ListedBefore(ids, n, trades[x].account) && 1 <= trades[x].account <= |s| && trades[x].price > 0.0
        ensures trades[x] == BuyTrade(date, trades[x].account, s[trades[x].account - 1], trades[x].price)
      {
        if x < |before| {
          assert trades[x] == before[x];
          var u :| 0 <= u < k && ids[u] == before[x].account;
        } else {
          assert ids[k] == trades[x].account;
        }
      }
    }
  }

  /** A burst over ascending account ids records its trades in ascending account order. */
  lemma {:induction false} BurstTradesAscending(s: seq<Account>, ids: seq<nat>, n: nat, openPrice: real, step: real, date: Date)
    requires n <= |ids|
    requires forall t :: 0 <= t < |ids| ==> 1 <= ids[t] <= |s|
    requires Ascending(ids)
    ensures AccountsAscending(BurstTrades(s, ids, n, openPrice, step, date))
    decreases n
  {
    if n > 0 {
      var k := n - 1;
      BurstTradesAscending(s, ids, k, openPrice, step, date);
      BurstTradesListed(s, ids, k, openPrice, step, date);
      var before := BurstTrades(s, ids, k, openPrice, step, date);
      var trades := BurstTrades(s, ids, n, openPrice, step, date);
      forall x | 0 <= x < |before|
        ensures trades[x] == before[x] && before[x].account < ids[k]
      {
        var u :| 0 <= u < k && ids[u] == before[x].account;
      }
    }
  }

  /** In a burst over ascending account ids, the trade for the t-th listed account is at the t-th staggered price. */
  lemma {:induction false} BurstTradesPriced(s: seq<Account>, ids: seq<nat>, n: nat, openPrice: real, step: real, date: Date)
    requires n <= |ids|
    requires forall t :: 0 <= t < |ids| ==> 1 <= ids[t] <= |s|
    requires Ascending(ids)
    ensures PricedByPosition(ids, n, openPrice, step, BurstTrades(s, ids, n, openPrice, step, date))
    decreases n
  {
    if n > 0 {
      var k := n - 1;
      BurstTradesPriced(s, ids, k, openPrice, step, date);
      BurstTradesListed(s, ids, k, openPrice, step, date);
      var before := BurstTrades(s, ids, k, openPrice, step, date);
      var trades := BurstTrades(s, ids, n, openPrice, step, date);
      forall x, t | 0 <= x < |trades| && 0 <= t < n && trades[x].account == ids[t]
        ensures trades[x].price == BurstPrice(openPrice, step, t)
      {
        if x < |before| {
          assert trades[x] == before[x];
          var u :| 0 <= u < k && ids[u] == before[x].account;
          assert ids[u] == ids[t];
          assert u == t;
        } else {
          assert trades[x].account == ids[k];
          assert t == k;
        }
      }
    }
  }

  /** In a burst over the first `n` listed accounts, every one whose staggered price is positive has its BUY trade. */
  lemma {:induction false} BurstTradesComplete(s: seq<Account>, ids: seq<nat>, n: nat, openPrice: real, step: real, date: Date)
    requires n <= |ids|
    requires forall t :: 0 <= t < |ids| ==> 1 <= ids[t] <= |s|
    ensures BuysComplete(s, ids, n, openPrice, step, date, BurstTrades(s, ids, n, openPrice, step, date))
    decreases n
  {
    if n > 0 {
      var k := n - 1;
      BurstTradesComplete(s, ids, k, openPrice, step, date);
      var before := BurstTrades(s, ids, k, openPrice, step, date);
      var trades := BurstTrades(s, ids, n, openPrice, step, date);
      forall t | 0 <= t < n && BurstPrice(openPrice, step, t) > 0.0
        ensures BuyTrade(date, ids[t], s[ids[t] - 1], BurstPrice(openPrice, step, t)) in trades
      {
        if t < k {
          assert BuyTrade(date, ids[t], s[ids[t] - 1], BurstPrice(openPrice, step, t)) in before;
        }
      }
    }
  }

  /** The y-th BUY trade of a burst over the empty accounts, field by field. */
  lemma BurstTradeAt(s: seq<Account>, ids: seq<nat>, y: nat, openPrice: real, step: real, date: Date)
    requires ids == IdsWithStatus(s, Empty)
    requires y < |BurstTrades(s, ids, |ids|, openPrice, step, date)|
    ensures var tr := BurstTrades(s, ids, |ids|, openPrice, step, date)[y];
      1 <= tr.account <= |s| && s[tr.account - 1].status == Empty &&
      tr.action == Buy && tr.date == date && tr.price > 0.0 &&
      tr.price == BurstPrice(openPrice, step, Rank(s, tr.account - 1, Empty)) &&
      tr.amount == s[tr.account - 1].cash
  {
    var tr := BurstTrades(s, ids, |ids|, openPrice, step, date)[y];
    IdsAscending(s, Empty);
    BurstTradesListed(s, ids, |ids|, openPrice, step, date);
    BurstTradesPriced(s, ids, |ids|, openPrice, step, date);
    var t :| 0 <= t < |ids| && ids[t] == tr.account;
    RankOfId(s, t, Empty);
  }

  /**
   * The BUY trades of a burst: each names an account that was empty, at the
   * staggered price of its rank among the empty accounts, which is positive,
   * for exactly the cash that account holds.
   */
  lemma BurstLedger(b: Book, openPrice: real, step: real, date: Date)
    ensures var s := b.accounts;
      var trades := Burst(b, openPrice, step, date).trades;
      b.trades <= trades &&
      forall x :: |b.trades| <= x < |trades| ==>
        1 <= trades[x].account <= |s| && s[trades[x].account - 1].status == Empty &&
        trades[x].action == Buy && trades[x].date == date && trades[x].price > 0.0 &&
        trades[x].price == BurstPrice(openPrice, step, Rank(s, trades[x].account - 1, Empty)) &&
        trades[x].amount == s[trades[x].account - 1].cash
  {
    var s := b.accounts;
    var ids := IdsWithStatus(s, Empty);
    var added := BurstTrades(s, ids, |ids|, openPrice, step, date);
    var trades := Burst(b, openPrice, step, date).trades;
    assert trades[|b.trades|..] == added;
    forall x | |b.trades| <= x < |trades|
      ensures 1 <= trades[x].account <= |s| && s[trades[x].account - 1].status == Empty
      ensures trades[x].action == Buy && trades[x].date == date && trades[x].price > 0.0
      ensures trades[x].price == BurstPrice(openPrice, step, Rank(s, trades[x].account - 1, Empty))
      ensures trades[x].amount == s[trades[x].account - 1].cash
    {
      var y := x - |b.trades|;
      assert trades[x] == added[y];
      BurstTradeAt(s, ids, y, openPrice, step, date);
    }
  }

  /**
   * Every account a burst fills has its BUY trade, at the staggered price of
   * its rank, among the trades the burst appends, which are in ascending
   * account order.
   */
  lemma BurstLedgerComplete(b: Book, openPrice: real, step: real, date: Date)
    ensures var s := b.accounts;
      forall j :: 0 <= j < |s| && BurstAccounts(s, openPrice, step)[j] != s[j] ==>
        BuyTrade(date, j + 1, s[j], BurstPrice(openPrice, step, Rank(s, j, Empty)))
          in Burst(b, openPrice, step, date).trades[|b.trades|..]
    ensures AccountsAscending(Burst(b, openPrice, step, date).trades[|b.trades|..])
  {
    var s := b.accounts;
    var ids := IdsWithStatus(s, Empty);
    var added := BurstTrades(s, ids, |ids|, openPrice, step, date);
    assert Burst(b, openPrice, step, date).trades[|b.trades|..] == added;
    forall j | 0 <= j < |s| && BurstAccounts(s, openPrice, step)[j] != s[j]
      ensures BuyTrade(date, j + 1, s[j], BurstPrice(openPrice, step, Rank(s, j, Empty))) in added
    {
      IdAtRank(s, j, Empty);
      BurstTradesComplete(s, ids, |ids|, openPrice, step, date);
    }
    IdsAscending(s, Empty);
    BurstTradesAscending(s, ids, |ids|, openPrice, step, date);
  }

  /** Every trade is the SELL at 99% of the open of one of the first `n` listed accounts, which passes the sell test. */
  predicate SellsOfListed(s: seq<Account>, ids: seq<nat>, n: nat, openPrice: real, rate: real, date: Date, trades: seq<Trade>)
    requires n <= |ids|
  {
    forall x :: 0 <= x < |trades| ==>
      ListedBefore(ids, n, trades[x].account) && 1 <= trades[x].account <= |s| &&
      AboveSellLine(s[trades[x].account - 1].avgPrice, openPrice, rate) &&
      trades[x] == SellTrade(date, trades[x].account, s[trades[x].account - 1], openPrice * SellDiscount)
  }

  /** Every one of the first `n` listed accounts that passes the sell test has its SELL trade. */
  predicate SellsComplete(s: seq<Account>, ids: seq<nat>, n: nat, openPrice: real, rate: real, date: Date, trades: seq<Trade>)
    requires n <= |ids|
    requires forall t :: 0 <= t < |ids| ==> 1 <= ids[t] <= |s|
  {
    forall t :: 0 <= t < n && AboveSellLine(s[ids[t] - 1].avgPrice, openPrice, rate) ==>
      SellTrade(date, ids[t], s[ids[t] - 1], openPrice * SellDiscount) in trades
  }

  /** A sweep over the first `n` listed accounts: every SELL trade names one of them that passes the sell test, at 99% of the open. */
  lemma {:induction false} SweepTradesListed(s: seq<Account>, ids: seq<nat>, n: nat, openPrice: real, rate: real, date: Date)
    requires n <= |ids|
    requires forall t :: 0 <= t < |ids| ==> 1 <= ids[t] <= |s|
    ensures SellsOfListed(s, ids, n, openPrice, rate, date, SweepTrades(s, ids, n, openPrice, rate, date))
    decreases n
  {
    if n > 0 {
      var k := n - 1;
      SweepTradesListed(s, ids, k, openPrice, rate, date);
      var before := SweepTrades(s, ids, k, openPrice, rate, date);
      var trades := SweepTrades(s, ids, n, openPrice, rate, date);
      forall x | 0 <= x < |trades|
        ensures ListedBefore(ids, n, trades[x].account) && 1 <= trades[x].account <= |s|
        ensures AboveSellLine(s[trades[x].account - 1].avgPrice, openPrice, rate)
        ensures trades[x] == SellTrade(date, trades[x].account, s[trades[x].account - 1], openPrice * SellDiscount)
      {
        if x < |before| {
          assert trades[x] == before[x];
          var u :| 0 <= u < k && ids[u] == before[x].account;
        } else {
          assert ids[k] == trades[x].account;
        }
      }
    }
  }

  /** A sweep over ascending account ids records its trades in ascending account order. */
  lemma {:induction false} SweepTradesAscending(s: seq<Account>, ids: seq<nat>, n: nat, openPrice: real, rate: real, date: Date)
    requires n <= |ids|
    requires forall t :: 0 <= t < |ids| ==> 1 <= ids[t] <= |s|
    requires Ascending(ids)
    ensures AccountsAscending(SweepTrades(s, ids, n, openPrice, rate, date))
    decreases n
  {
    if n > 0 {
      var k := n - 1;
      SweepTradesAscending(s, ids, k, openPrice, rate, date);
      SweepTradesListed(s, ids, k, openPrice, rate, date);
      var before := SweepTrades(s, ids, k, openPrice, rate, date);
      var trades := SweepTrades(s, ids, n, openPrice, rate, date);
      forall x | 0 <= x < |before|
        ensures trades[x] == before[x] && before[x].account < ids[k]
      {
        var u :| 0 <= u < k && ids[u] == before[x].account;
      }
    }
  }

  /** In a sweep over the first `n` listed accounts, every one that passes the sell test has its SELL trade. */
  lemma {:induction false} SweepTradesComplete(s: seq<Account>, ids: seq<nat>, n: nat, openPrice: real, rate: real, date: Date)
    requires n <= |ids|
    requires forall t :: 0 <= t < |ids| ==> 1 <= ids[t] <= |s|
    ensures SellsComplete(s, ids, n, openPrice, rate, date, SweepTrades(s, ids, n, openPrice, rate, date))
    decreases n
  {
    if n > 0 {
      var k := n - 1;
      SweepTradesComplete(s, ids, k, openPrice, rate, date);
      var before := SweepTrades(s, ids, k, openPrice, rate, date);
      var trades := SweepTrades(s, ids, n, openPrice, rate, date);
      forall t | 0 <= t < n && AboveSellLine(s[ids[t] - 1].avgPrice, openPrice, rate)
        ensures SellTrade(date, ids[t], s[ids[t] - 1], openPrice * SellDiscount) in trades
      {
        if t < k {
          assert SellTrade(date, ids[t], s[ids[t] - 1], openPrice * SellDiscount) in before;
        }
      }
    }
  }

  /** The y-th SELL trade of a sweep over the filled accounts, field by field. */
  lemma SweepTradeAt(s: seq<Account>, ids: seq<nat>, y: nat, openPrice: real, rate: real, date: Date)
    requires ids == IdsWithStatus(s, Filled)
    requires y < |SweepTrades(s, ids, |ids|, openPrice, rate, date)|
    ensures var tr := SweepTrades(s, ids, |ids|, openPrice, rate, date)[y];
      1 <= tr.account <= |s| && SellsAt(s[tr.account - 1], openPrice, rate) &&
      tr.action == Sell && tr.date == date && tr.price == openPrice * SellDiscount &&
      tr.amount == s[tr.account - 1].shares * tr.price
  {
    var tr := SweepTrades(s, ids, |ids|, openPrice, rate, date)[y];
    SweepTradesListed(s, ids, |ids|, openPrice, rate, date);
    var t :| 0 <= t < |ids| && ids[t] == tr.account;
    RankOfId(s, t, Filled);
  }

  /**
   * The SELL trades of a sweep: each names an account that was filled and
   * passes the sell test, at 99% of the open, for that account's shares at
   * that price.
   */
  lemma SweepLedger(b: Book, openPrice: real, rate: real, date: Date)
    ensures var s := b.accounts;
      var trades := Sweep(b, openPrice, rate, date).trades;
      b.trades <= trades &&
      forall x :: |b.trades| <= x < |trades| ==>
        1 <= trades[x].account <= |s| && SellsAt(s[trades[x].account - 1], openPrice, rate) &&
        trades[x].action == Sell && trades[x].date == date && trades[x].price == openPrice * SellDiscount &&
        trades[x].amount == s[trades[x].account - 1].shares * trades[x].price
  {
    var s := b.accounts;
    var ids := IdsWithStatus(s, Filled);
    var added := SweepTrades(s, ids, |ids|, openPrice, rate, date);
    var trades := Sweep(b, openPrice, rate, date).trades;
    assert trades[|b.trades|..] == added;
    forall x | |b.trades| <= x < |trades|
      ensures 1 <= trades[x].account <= |s| && SellsAt(s[trades[x].account - 1], openPrice, rate)
      ensures trades[x].action == Sell && trades[x].date == date && trades[x].price == openPrice * SellDiscount
      ensures trades[x].amount == s[trades[x].account - 1].shares * trades[x].price
    {
      var y := x - |b.trades|;
      assert trades[x] == added[y];
      SweepTradeAt(s, ids, y, openPrice, rate, date);
    }
  }

  /**
   * Every account a sweep sells has its SELL trade, at 99% of the open,
   * among the trades the sweep appends, which are in ascending account order.
   */
  lemma SweepLedgerComplete(b: Book, openPrice: real, rate: real, date: Date)
    ensures var s := b.accounts;
      forall j :: 0 <= j < |s| && SellsAt(s[j], openPrice, rate) ==>
        SellTrade(date, j + 1, s[j], openPrice * SellDiscount) in Sweep(b, openPrice, rate, date).trades[|b.trades|..]
    ensures AccountsAscending(Sweep(b, openPrice, rate, date).trades[|b.trades|..])
  {
    var s := b.accounts;
    var ids := IdsWithStatus(s, Filled);
    var added := SweepTrades(s, ids, |ids|, openPrice, rate, date);
    assert Sweep(b, openPrice, rate, date).trades[|b.trades|..] == added;
    forall j | 0 <= j < |s| && SellsAt(s[j], openPrice, rate)
      ensures SellTrade(date, j + 1, s[j], openPrice * SellDiscount) in added
    {
      IdAtRank(s, j, Filled);
      SweepTradesComplete(s, ids, |ids|, openPrice, rate, date);
    }
    IdsAscending(s, Filled);
    SweepTradesAscending(s, ids, |ids|, openPrice, rate, date);
  }

  // ---------------------------------------------------------------------
  // Valuation
  // ---------------------------------------------------------------------

  /** A pool in which no account is filled lists no filled account. */
  lemma NoneFilled(s: seq<Account>)
    requires forall j :: 0 <= j < |s| ==> s[j].status == Empty
    ensures IdsWithStatus(s, Filled) == []
  {
    IdsWithStatusSpec(s, Filled);
    if IdsWithStatus(s, Filled) != [] {
      assert false;
    }
  }

  /** Empty accounts holding `c` each are worth `c` per account, whatever the close. */
  lemma {:induction false} UniformCashValue(s: seq<Account>, c: real, close: real)
    requires forall j :: 0 <= j < |s| ==> s[j] == InitialAccount(c)
    ensures TotalValue(s, close) == |s| as real * c
    decreases |s|
  {
    if s != [] {
      UniformCashValue(s[..|s| - 1], c, close);
    }
  }

  /**
   * The valuation of a freshly created pool for any position size: twenty
   * empty accounts of `initialCapital / positionSize` are worth
   * `20 * initialCapital / positionSize`, with no filled account and a
   * return of `(20 / positionSize - 1) * 100` percent. The pool is worth
   * exactly the initial capital only when the position size is twenty.
   */
  lemma FreshPoolValuationSized(initialCapital: real, positionSize: real, date: Date, close: real)
    requires initialCapital != 0.0 && positionSize != 0.0
    ensures Valuation(InitialAccounts(initialCapital / positionSize), date, close, initialCapital)
            == DailyResult(date, close, AccountCount as real * (initialCapital / positionSize), 0, AccountCount,
                           (AccountCount as real / positionSize - 1.0) * 100.0)
    ensures (Valuation(InitialAccounts(initialCapital / positionSize), date, close, initialCapital).totalValue
             == initialCapital) <==> positionSize == AccountCount as real
  {
    var c := initialCapital / positionSize;
    var s := InitialAccounts(c);
    UniformCashValue(s, c, close);
    NoneFilled(s);
    var n := AccountCount as real;
    var x := n / positionSize - 1.0;
    assert n * c - initialCapital == initialCapital * x;
    assert (initialCapital * x) / initialCapital == x;
    assert n * c == initialCapital <==> n / positionSize == 1.0;
  }

  /**
   * The valuation of a freshly created pool (twenty empty accounts of
   * `initialCapital / 20`) is the initial capital, with no filled account
   * and a return of zero.
   */
  lemma FreshPoolValuation(initialCapital: real, date: Date, close: real)
    requires initialCapital != 0.0
    ensures Valuation(InitialAccounts(initialCapital / AccountCount as real), date, close, initialCapital)
            == DailyResult(date, close, initialCapital, 0, AccountCount, 0.0)
  {
    var s := InitialAccounts(initialCapital / AccountCount as real);
    UniformCashValue(s, initialCapital / AccountCount as real, close);
    NoneFilled(s);
  }

  // ---------------------------------------------------------------------
  // The account invariant
  // ---------------------------------------------------------------------

  /**
   * An empty account holds positive cash and nothing else; a filled account
   * holds positive shares bought at a positive price for exactly its cash
   * (which the buy leaves in place).
   */
  predicate WellFormed(a: Account) {
    match a.status
    case Empty => a.cash > 0.0 && a.shares == 0.0 && a.avgPrice == 0.0
    case Filled => a.cash > 0.0 && a.shares > 0.0 && a.avgPrice > 0.0 && a.shares * a.avgPrice == a.cash
  }

  predicate PoolWellFormed(s: seq<Account>) {
    forall j :: 0 <= j < |s| ==> WellFormed(s[j])
  }

  lemma BoughtWellFormed(a: Account, price: real)
    requires WellFormed(a) && a.status == Empty && price > 0.0
    ensures WellFormed(Bought(a, price))
  {
    var r := Bought(a, price);
    assert r.shares * price == a.cash;
  }

  lemma SoldWellFormed(a: Account, price: real)
    requires WellFormed(a) && a.status == Filled && price > 0.0
    ensures WellFormed(Sold(a, price))
  {
    assert a.shares * price > 0.0;
  }

  /** A day whose open is positive keeps every account well formed. */
  lemma DayKeepsWellFormed(b: Book, bar: Bar, prevClose: real, initialCapital: real)
    requires initialCapital != 0.0 && bar.open > 0.0
    requires PoolWellFormed(b.accounts)
    ensures PoolWellFormed(Day(b, bar, prevClose, initialCapital).accounts)
  {
    if bar.ma60.Some? {
      var sig := Evaluate(bar.ma60.value, prevClose);
      var s := b.accounts;
      BurstFoldComplete(s, bar.open, CalculateStep(prevClose));
      var s1 := if sig.buy then BurstAccounts(s, bar.open, CalculateStep(prevClose)) else s;
      forall j | 0 <= j < |s1|
        ensures WellFormed(s1[j])
      {
        if sig.buy {
          var p := BurstPrice(bar.open, CalculateStep(prevClose), Rank(s, j, Empty));
          if s[j].status == Empty && p > 0.0 {
            BoughtWellFormed(s[j], p);
          }
        }
      }
      SweepFoldComplete(s1, bar.open, sig.threshold);
      var s2 := SweepAccounts(s1, bar.open, sig.threshold);
      forall j | 0 <= j < |s2|
        ensures WellFormed(s2[j])
      {
        if SellsAt(s1[j], bar.open, sig.threshold) {
          SoldWellFormed(s1[j], bar.open * SellDiscount);
        }
      }
    }
  }

  /** Over bars with positive opens, the account invariant holds after every bar. */
  lemma {:induction false} RunKeepsWellFormed(b: Book, bars: seq<Bar>, n: nat, initialCapital: real)
    requires n <= |bars| && initialCapital != 0.0
    requires forall i :: 0 <= i < |bars| ==> bars[i].open > 0.0
    requires PoolWellFormed(b.accounts)
    ensures PoolWellFormed(RunFrom(b, bars, n, initialCapital).accounts)
    decreases n
  {
    if n > 0 {
      RunKeepsWellFormed(b, bars, n - 1, initialCapital);
      DayKeepsWellFormed(RunFrom(b, bars, n - 1, initialCapital), bars[n - 1], PrevClose(bars, n - 1), initialCapital);
    }
  }

  /** The pool a simulator starts with is well formed when the per-account cash is positive. */
  lemma InitialWellFormed(cashPerTrade: real)
    requires cashPerTrade > 0.0
    ensures PoolWellFormed(InitialAccounts(cashPerTrade))
  {
  }

  // ---------------------------------------------------------------------
  // The run as a whole
  // ---------------------------------------------------------------------

  /** Number of the first `n` bars that carry an average. */
  function BarsWithAverage(bars: seq<Bar>, n: nat): nat
    requires n <= |bars|
  {
    if n == 0 then 0 else BarsWithAverage(bars, n - 1) + (if bars[n - 1].ma60.Some? then 1 else 0)
  }

  /** A run appends exactly one daily record per bar that has an average. */
  lemma {:induction false} RunShape(b: Book, bars: seq<Bar>, n: nat, initialCapital: real)
    requires n <= |bars| && initialCapital != 0.0
    ensures |RunFrom(b, bars, n, initialCapital).daily| == |b.daily| + BarsWithAverage(bars, n)
    decreases n
  {
    if n > 0 {
      RunShape(b, bars, n - 1, initialCapital);
    }
  }

  /** With no filled account, a sweep sells nothing and records nothing. */
  lemma QuietSweep(b: Book, openPrice: real, rate: real, date: Date)
    requires forall j :: 0 <= j < |b.accounts| ==> b.accounts[j].status == Empty
    ensures Sweep(b, openPrice, rate, date) == b
  {
    NoneFilled(b.accounts);
  }

  /**
   * Because the buy test never passes for a non-negative average, a pool
   * that starts with every account empty stays so and no trade is ever
   * recorded, over any bars whose averages are non-negative.
   */
  lemma {:induction false} NoTradesFromEmptyPool(b: Book, bars: seq<Bar>, n: nat, initialCapital: real)
    requires n <= |bars| && initialCapital != 0.0
    requires forall j :: 0 <= j < |b.accounts| ==> b.accounts[j].status == Empty
    requires forall i :: 0 <= i < |bars| && bars[i].ma60.Some? ==> bars[i].ma60.value >= 0.0
    ensures RunFrom(b, bars, n, initialCapital).accounts == b.accounts
    ensures RunFrom(b, bars, n, initialCapital).trades == b.trades
    decreases n
  {
    if n > 0 {
      NoTradesFromEmptyPool(b, bars, n - 1, initialCapital);
      var r := RunFrom(b, bars, n - 1, initialCapital);
      var bar := bars[n - 1];
      if bar.ma60.Some? {
        QuietSweep(r, bar.open, Evaluate(bar.ma60.value, PrevClose(bars, n - 1)).threshold, bar.date);
      }
    }
  }
}
