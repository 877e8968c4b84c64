/**
 * Values and pure specification of the multi-account grid simulator
 * (scripts/january_simulation.py): twenty sub-accounts that are either empty
 * or filled, a buy burst that fills every empty account at staggered prices,
 * a sell sweep that liquidates filled accounts whose cost basis sits far
 * above the open, and one valuation record per processed bar.
 *
 * The imperative class in module GridSimulator is proved equal to the
 * functions here; the properties of the strategy are proved about them.
 */
module GridModel {
  import opened Optional
  import opened Market

  datatype Status = Empty | Filled

  /** One sub-account; `cash` is not cleared by a buy, exactly as in the source. */
  datatype Account = Account(cash: real, shares: real, avgPrice: real, status: Status)

  /** A ledger entry; `account` is the 1-based account number. */
  datatype Trade = Trade(date: Date, account: nat, action: Action, price: real, shares: real, amount: real)

  datatype DailyResult = DailyResult(date: Date, closePrice: real, totalValue: real,
                                     filledAccounts: int, emptyAccounts: int, totalReturnPct: real)

  /** A bar of the already windowed series, with its 60-day average if there is one. */
  datatype Bar = Bar(date: Date, open: real, close: real, ma60: Option<real>)

  /** The day's decision: whether to run the buy burst, and the sell threshold rate. */
  datatype Signal = Signal(buy: bool, threshold: real)

  /** Everything a run owns: the account pool and the two append-only ledgers. */
  datatype Book = Book(accounts: seq<Account>, trades: seq<Trade>, daily: seq<DailyResult>)

  const AccountCount: nat := 20
  /** Close of the bar before the window, used as the first bar's previous close. */
  const SeedPrevClose: real := 31.40
  const BuyPremium: real := 1.02
  const SellDiscount: real := 0.99
  const UpBand: real := 1.05
  const DownBand: real := 0.95
  const UpThreshold: real := 0.09
  const DownThreshold: real := 0.06

  function InitialAccount(cashPerTrade: real): Account {
    Account(cashPerTrade, 0.0, 0.0, Empty)
  }

  function InitialAccounts(cashPerTrade: real): (s: seq<Account>)
    ensures |s| == AccountCount
  {
    seq(AccountCount, _ => InitialAccount(cashPerTrade))
  }

  /** What one account contributes to the day's valuation at the given close. */
  function MarkedValue(a: Account, close: real): real {
    if a.status == Filled then a.shares * close else a.cash
  }

  /** An account after a buy at `price`: filled at that cost basis, keeping its cash. */
  function Bought(a: Account, price: real): (r: Account)
    requires price != 0.0
    ensures r.status == Filled && r.avgPrice == price && r.cash == a.cash
  {
    a.(shares := a.cash / price, avgPrice := price, status := Filled)
  }

  /** A buy takes exactly as many shares as the cash buys: the account's value at the fill price is the cash it committed. */
  lemma BoughtValue(a: Account, price: real)
    requires price != 0.0
    ensures MarkedValue(Bought(a, price), price) == a.cash
  {
  }

  /** An account after a sell at `price`: empty again, holding the proceeds as cash. */
  function Sold(a: Account, price: real): (r: Account)
    ensures r.status == Empty && r.shares == 0.0 && r.avgPrice == 0.0
  {
    a.(cash := a.shares * price, shares := 0.0, avgPrice := 0.0, status := Empty)
  }

  /**
   * The proceeds of a sell are the value the filled account had at the sale
   * price, and no later close changes the value of the emptied account.
   */
  lemma SoldValue(a: Account, price: real, close: real)
    ensures a.status == Filled ==> Sold(a, price).cash == MarkedValue(a, price)
    ensures MarkedValue(Sold(a, price), close) == a.shares * price
  {
  }

  function BuyTrade(date: Date, id: nat, a: Account, price: real): Trade
    requires price != 0.0
  {
    Trade(date, id, Buy, price, a.cash / price, a.cash)
  }

  function SellTrade(date: Date, id: nat, a: Account, price: real): Trade {
    Trade(date, id, Sell, price, a.shares, a.shares * price)
  }

  /**
   * The trend rule of the driver: an up trend when the average is above the
   * previous close, with its buy test and its sell threshold. As written,
   * neither buy test can hold for a non-negative average.
   */
  function Evaluate(ma60: real, prevClose: real): (s: Signal)
    ensures s.threshold == if ma60 > prevClose then UpThreshold else DownThreshold
    ensures ma60 >= 0.0 ==> !s.buy
  {
    if ma60 > prevClose then Signal(prevClose > ma60 * UpBand, UpThreshold)
    else Signal(prevClose < ma60 * DownBand, DownThreshold)
  }

  /**
   * One percent of the previous close rounded to one decimal place, ties to
   * even, computed on exact reals.
   */
  function CalculateStep(prevClose: real): (step: real)
    ensures (step * 10.0).Floor as real == step * 10.0
    ensures -0.05 <= step - prevClose * 0.01 <= 0.05
  {
    var x := prevClose * 0.01 * 10.0;
    var n := x.Floor;
    var frac := x - n as real;
    var m := if frac > 0.5 then n + 1
             else if frac < 0.5 then n
             else if n % 2 == 0 then n else n + 1;
    m as real / 10.0
  }

  /** Account numbers (1-based, ascending) of the accounts with status `st`. */
  function IdsWithStatus(s: seq<Account>, st: Status): (ids: seq<nat>)
    ensures |ids| <= |s|
    ensures forall t :: 0 <= t < |ids| ==> 1 <= ids[t] <= |s|
    decreases |s|
  {
    if s == [] then []
    else
      var init := s[..|s| - 1];
      IdsWithStatus(init, st) + (if s[|s| - 1].status == st then [|s|] else [])
  }

  /**
   * The list holds exactly the accounts with status `st`, each once, in
   * ascending account number.
   */
  lemma {:induction false} IdsWithStatusSpec(s: seq<Account>, st: Status)
    ensures forall t :: 0 <= t < |IdsWithStatus(s, st)| ==> s[IdsWithStatus(s, st)[t] - 1].status == st
    ensures forall t, u :: 0 <= t < u < |IdsWithStatus(s, st)| ==> IdsWithStatus(s, st)[t] < IdsWithStatus(s, st)[u]
    ensures forall j :: 0 <= j < |s| && s[j].status == st ==> j + 1 in IdsWithStatus(s, st)
    decreases |s|
  {
    if s != [] {
      var init := s[..|s| - 1];
      IdsWithStatusSpec(init, st);
      var ids := IdsWithStatus(s, st);
      var head := IdsWithStatus(init, st);
      assert ids == head + (if s[|s| - 1].status == st then [|s|] else []);
      forall t | 0 <= t < |ids|
        ensures s[ids[t] - 1].status == st
      {
        if t < |head| {
          assert ids[t] == head[t];
          assert init[head[t] - 1].status == st;
          assert s[head[t] - 1] == init[head[t] - 1];
        } else {
          assert s[|s| - 1].status == st && ids[t] == |s|;
        }
      }
      forall t, u | 0 <= t < u < |ids|
        ensures ids[t] < ids[u]
      {
        assert ids[t] == head[t];
        if u < |head| {
          assert ids[u] == head[u];
        } else {
          assert ids[u] == |s|;
        }
      }
      forall j | 0 <= j < |s| && s[j].status == st
        ensures j + 1 in ids
      {
        if j < |init| {
          assert init[j] == s[j];
          assert j + 1 in head;
        } else {
          assert ids[|head|] == j + 1;
        }
      }
    }
  }

  /** Position of account index `j` among the accounts with status `st`. */
  function Rank(s: seq<Account>, j: nat, st: Status): nat
    requires j <= |s|
  {
    |IdsWithStatus(s[..j], st)|
  }

  lemma {:induction false} IdsPrefix(s: seq<Account>, m: nat, st: Status)
    requires m <= |s|
    ensures IdsWithStatus(s[..m], st) <= IdsWithStatus(s, st)
    decreases |s|
  {
    if m < |s| {
      var init := s[..|s| - 1];
      IdsPrefix(init, m, st);
      assert init[..m] == s[..m];
    } else {
      assert s[..m] == s;
    }
  }

  /** An account with status `st` is listed at its rank. */
  lemma IdAtRank(s: seq<Account>, j: nat, st: Status)
    requires j < |s| && s[j].status == st
    ensures Rank(s, j, st) < |IdsWithStatus(s, st)|
    ensures IdsWithStatus(s, st)[Rank(s, j, st)] == j + 1
  {
    IdsPrefix(s, j + 1, st);
    assert s[..j + 1][..j] == s[..j];
  }

  /** The t-th listed account has rank t. */
  lemma RankOfId(s: seq<Account>, t: nat, st: Status)
    requires t < |IdsWithStatus(s, st)|
    ensures IdsWithStatus(s, st)[t] - 1 < |s|
    ensures s[IdsWithStatus(s, st)[t] - 1].status == st
    ensures Rank(s, IdsWithStatus(s, st)[t] - 1, st) == t
  {
    var ids := IdsWithStatus(s, st);
    var j := ids[t] - 1;
    IdsWithStatusSpec(s, st);
    IdAtRank(s, j, st);
  }

  /** Every account is either empty or filled. */
  lemma {:induction false} StatusPartition(s: seq<Account>)
    ensures |IdsWithStatus(s, Filled)| + |IdsWithStatus(s, Empty)| == |s|
    decreases |s|
  {
    if s != [] {
      StatusPartition(s[..|s| - 1]);
    }
  }

  /** Candidate fill price of the k-th empty account in a burst. */
  function BurstPrice(openPrice: real, step: real, k: nat): real {
    openPrice * BuyPremium - step * k as real
  }

  /** Account `j` after the burst: filled at its staggered price when that price is positive. */
  function BurstAccount(s: seq<Account>, j: nat, openPrice: real, step: real): Account
    requires j < |s|
  {
    var p := BurstPrice(openPrice, step, Rank(s, j, Empty));
    if s[j].status == Empty && p > 0.0 then Bought(s[j], p) else s[j]
  }

  function BurstAccounts(s: seq<Account>, openPrice: real, step: real): (r: seq<Account>)
    ensures |r| == |s|
  {
    seq(|s|, j requires 0 <= j < |s| => BurstAccount(s, j, openPrice, step))
  }

  /** The BUY trades of a burst over the first `n` listed accounts, in list order. */
  function BurstTrades(s: seq<Account>, ids: seq<nat>, n: nat, openPrice: real, step: real, date: Date): seq<Trade>
    requires n <= |ids|
    requires forall t :: 0 <= t < |ids| ==> 1 <= ids[t] <= |s|
    decreases n
  {
    if n == 0 then []
    else
      var p := BurstPrice(openPrice, step, n - 1);
      BurstTrades(s, ids, n - 1, openPrice, step, date)
        + (if p > 0.0 then [BuyTrade(date, ids[n - 1], s[ids[n - 1] - 1], p)] else [])
  }

  /** Listed account ids in strictly ascending order (so no id is listed twice). */
  predicate Ascending(ids: seq<nat>) {
    forall t, u :: 0 <= t < u < |ids| ==> ids[t] < ids[u]
  }

  lemma IdsAscending(s: seq<Account>, st: Status)
    ensures Ascending(IdsWithStatus(s, st))
  {
    IdsWithStatusSpec(s, st);
  }

  /**
   * The accounts once the burst has handled the first `n` listed accounts,
   * one at a time: the k-th listed account is bought at the k-th staggered
   * price when that price is positive.
   */
  function BurstFold(s: seq<Account>, ids: seq<nat>, n: nat, openPrice: real, step: real): (r: seq<Account>)
    requires n <= |ids|
    requires forall t :: 0 <= t < |ids| ==> 1 <= ids[t] <= |s|
    ensures |r| == |s|
    decreases n
  {
    if n == 0 then s
    else
      var r := BurstFold(s, ids, n - 1, openPrice, step);
      var p := BurstPrice(openPrice, step, n - 1);
      if p > 0.0 then r[ids[n - 1] - 1 := Bought(r[ids[n - 1] - 1], p)] else r
  }

  /** An account listed after the first `n` is still as it was. */
  lemma {:induction false} BurstFoldUntouched(s: seq<Account>, ids: seq<nat>, n: nat, t: nat, openPrice: real, step: real)
    requires forall u :: 0 <= u < |ids| ==> 1 <= ids[u] <= |s|
    requires Ascending(ids) && n <= t < |ids|
    ensures BurstFold(s, ids, n, openPrice, step)[ids[t] - 1] == s[ids[t] - 1]
    decreases n
  {
    if n > 0 {
      BurstFoldUntouched(s, ids, n - 1, t, openPrice, step);
    }
  }

  /** After `n` steps over the empty accounts, an account is bought exactly when it is empty, ranks below `n` and its price is positive. */
  lemma {:induction false} BurstFoldAt(s: seq<Account>, n: nat, j: nat, openPrice: real, step: real)
    requires n <= |IdsWithStatus(s, Empty)| && j < |s|
    ensures BurstFold(s, IdsWithStatus(s, Empty), n, openPrice, step)[j] ==
      if s[j].status == Empty && Rank(s, j, Empty) < n then BurstAccount(s, j, openPrice, step) else s[j]
    decreases n
  {
    var ids := IdsWithStatus(s, Empty);
    if n > 0 {
      var k := n - 1;
      BurstFoldAt(s, k, j, openPrice, step);
      RankOfId(s, k, Empty);
      if j == ids[k] - 1 {
        BurstFoldAt(s, k, ids[k] - 1, openPrice, step);
      } else if s[j].status == Empty {
        IdAtRank(s, j, Empty);
      }
    }
  }

  /** Once every empty account is handled, the fold is the burst. */
  lemma BurstFoldComplete(s: seq<Account>, openPrice: real, step: real)
    ensures BurstFold(s, IdsWithStatus(s, Empty), |IdsWithStatus(s, Empty)|, openPrice, step) == BurstAccounts(s, openPrice, step)
  {
    var ids := IdsWithStatus(s, Empty);
    forall j | 0 <= j < |s|
      ensures BurstFold(s, ids, |ids|, openPrice, step)[j] == BurstAccounts(s, openPrice, step)[j]
    {
      BurstFoldAt(s, |ids|, j, openPrice, step);
      if s[j].status == Empty {
        IdAtRank(s, j, Empty);
      }
    }
  }

  /**
   * One iteration of the burst loop over the empty accounts: the i-th listed
   * account is still as it was and empty; it is bought at the i-th staggered
   * price, with its BUY trade appended, exactly when that price is positive.
   */
  lemma BurstStep(s: seq<Account>, i: nat, openPrice: real, step: real, date: Date)
    requires i < |IdsWithStatus(s, Empty)|
    ensures var ids := IdsWithStatus(s, Empty);
      var cur := BurstFold(s, ids, i, openPrice, step);
      1 <= ids[i] <= |s| && s[ids[i] - 1].status == Empty && cur[ids[i] - 1] == s[ids[i] - 1]
    ensures var ids := IdsWithStatus(s, Empty);
      var cur := BurstFold(s, ids, i, openPrice, step);
      var p := BurstPrice(openPrice, step, i);
      BurstFold(s, ids, i + 1, openPrice, step) == (if p > 0.0 then cur[ids[i] - 1 := Bought(cur[ids[i] - 1], p)] else cur)
    ensures var ids := IdsWithStatus(s, Empty);
      var p := BurstPrice(openPrice, step, i);
      BurstTrades(s, ids, i + 1, openPrice, step, date) ==
        BurstTrades(s, ids, i, openPrice, step, date) + (if p > 0.0 then [BuyTrade(date, ids[i], s[ids[i] - 1], p)] else [])
  {
    var ids := IdsWithStatus(s, Empty);
    IdsAscending(s, Empty);
    RankOfId(s, i, Empty);
    BurstFoldUntouched(s, ids, i, i, openPrice, step);
  }

  /** The sell test: the cost basis lies more than `rate` above the open. */
  predicate AboveSellLine(avgPrice: real, openPrice: real, rate: real) {
    avgPrice > openPrice * (1.0 + rate)
  }

  /** Whether the sweep liquidates this account at the given open and threshold rate. */
  predicate SellsAt(a: Account, openPrice: real, rate: real) {
    a.status == Filled && AboveSellLine(a.avgPrice, openPrice, rate)
  }

  function SweepAccount(a: Account, openPrice: real, rate: real): Account {
    if SellsAt(a, openPrice, rate) then Sold(a, openPrice * SellDiscount) else a
  }

  function SweepAccounts(s: seq<Account>, openPrice: real, rate: real): (r: seq<Account>)
    ensures |r| == |s|
  {
    seq(|s|, j requires 0 <= j < |s| => SweepAccount(s[j], openPrice, rate))
  }

  /** The SELL trades of a sweep over the first `n` listed accounts, in list order. */
  function SweepTrades(s: seq<Account>, ids: seq<nat>, n: nat, openPrice: real, rate: real, date: Date): seq<Trade>
    requires n <= |ids|
    requires forall t :: 0 <= t < |ids| ==> 1 <= ids[t] <= |s|
    decreases n
  {
    if n == 0 then []
    else
      var a := s[ids[n - 1] - 1];
      SweepTrades(s, ids, n - 1, openPrice, rate, date)
        + (if AboveSellLine(a.avgPrice, openPrice, rate) then [SellTrade(date, ids[n - 1], a, openPrice * SellDiscount)] else [])
  }

  /**
   * The accounts once the sweep has handled the first `n` listed accounts,
   * one at a time: a listed account whose cost basis passes the sell test
   * is sold at 99% of the open.
   */
  function SweepFold(s: seq<Account>, ids: seq<nat>, n: nat, openPrice: real, rate: real): (r: seq<Account>)
    requires n <= |ids|
    requires forall t :: 0 <= t < |ids| ==> 1 <= ids[t] <= |s|
    ensures |r| == |s|
    decreases n
  {
    if n == 0 then s
    else
      var r := SweepFold(s, ids, n - 1, openPrice, rate);
      var a := r[ids[n - 1] - 1];
      if AboveSellLine(a.avgPrice, openPrice, rate) then r[ids[n - 1] - 1 := Sold(a, openPrice * SellDiscount)] else r
  }

  /** An account listed after the first `n` is still as it was. */
  lemma {:induction false} SweepFoldUntouched(s: seq<Account>, ids: seq<nat>, n: nat, t: nat, openPrice: real, rate: real)
    requires forall u :: 0 <= u < |ids| ==> 1 <= ids[u] <= |s|
    requires Ascending(ids) && n <= t < |ids|
    ensures SweepFold(s, ids, n, openPrice, rate)[ids[t] - 1] == s[ids[t] - 1]
    decreases n
  {
    if n > 0 {
      SweepFoldUntouched(s, ids, n - 1, t, openPrice, rate);
    }
  }

  /** After `n` steps over the filled accounts, an account is swept exactly when it is filled and ranks below `n`. */
  lemma {:induction false} SweepFoldAt(s: seq<Account>, n: nat, j: nat, openPrice: real, rate: real)
    requires n <= |IdsWithStatus(s, Filled)| && j < |s|
    ensures SweepFold(s, IdsWithStatus(s, Filled), n, openPrice, rate)[j] ==
      if s[j].status == Filled && Rank(s, j, Filled) < n then SweepAccount(s[j], openPrice, rate) else s[j]
    decreases n
  {
    var ids := IdsWithStatus(s, Filled);
    if n > 0 {
      var k := n - 1;
      SweepFoldAt(s, k, j, openPrice, rate);
      RankOfId(s, k, Filled);
      if j == ids[k] - 1 {
        SweepFoldAt(s, k, ids[k] - 1, openPrice, rate);
      } else if s[j].status == Filled {
        IdAtRank(s, j, Filled);
      }
    }
  }

  /** Once every filled account is handled, the fold is the sweep. */
  lemma SweepFoldComplete(s: seq<Account>, openPrice: real, rate: real)
    ensures SweepFold(s, IdsWithStatus(s, Filled), |IdsWithStatus(s, Filled)|, openPrice, rate) == SweepAccounts(s, openPrice, rate)
  {
    var ids := IdsWithStatus(s, Filled);
    forall j | 0 <= j < |s|
      ensures SweepFold(s, ids, |ids|, openPrice, rate)[j] == SweepAccounts(s, openPrice, rate)[j]
    {
      SweepFoldAt(s, |ids|, j, openPrice, rate);
      if s[j].status == Filled {
        IdAtRank(s, j, Filled);
      }
    }
  }

  /**
   * One iteration of the sweep loop over the filled accounts: the i-th
   * listed account is still as it was and filled; it is sold at 99% of the
   * open, with its SELL trade appended, exactly when it passes the sell test.
   */
  lemma SweepStep(s: seq<Account>, i: nat, openPrice: real, rate: real, date: Date)
    requires i < |IdsWithStatus(s, Filled)|
    ensures var ids := IdsWithStatus(s, Filled);
      var cur := SweepFold(s, ids, i, openPrice, rate);
      1 <= ids[i] <= |s| && s[ids[i] - 1].status == Filled && cur[ids[i] - 1] == s[ids[i] - 1]
    ensures var ids := IdsWithStatus(s, Filled);
      var cur := SweepFold(s, ids, i, openPrice, rate);
      var a := cur[ids[i] - 1];
      SweepFold(s, ids, i + 1, openPrice, rate) ==
        (if AboveSellLine(a.avgPrice, openPrice, rate) then cur[ids[i] - 1 := Sold(a, openPrice * SellDiscount)] else cur)
    ensures var ids := IdsWithStatus(s, Filled);
      var a := s[ids[i] - 1];
      SweepTrades(s, ids, i + 1, openPrice, rate, date) ==
        SweepTrades(s, ids, i, openPrice, rate, date)
          + (if AboveSellLine(a.avgPrice, openPrice, rate) then [SellTrade(date, ids[i], a, openPrice * SellDiscount)] else [])
  {
    var ids := IdsWithStatus(s, Filled);
    IdsAscending(s, Filled);
    RankOfId(s, i, Filled);
    SweepFoldUntouched(s, ids, i, i, openPrice, rate);
  }

  /**
   * The book after a buy burst over the accounts that are empty at its
   * start: the accounts are the closed-form burst, the trade ledger only
   * grows and the daily ledger is untouched.
   */
  function Burst(b: Book, openPrice: real, step: real, date: Date): (r: Book)
    ensures r.accounts == BurstAccounts(b.accounts, openPrice, step)
    ensures b.trades <= r.trades && r.daily == b.daily
  {
    var ids := IdsWithStatus(b.accounts, Empty);
    BurstFoldComplete(b.accounts, openPrice, step);
    b.(accounts := BurstFold(b.accounts, ids, |ids|, openPrice, step),
       trades := b.trades + BurstTrades(b.accounts, ids, |ids|, openPrice, step, date))
  }

  /**
   * The book after a sell sweep over the accounts that are filled at its
   * start: the accounts are the closed-form sweep, the trade ledger only
   * grows and the daily ledger is untouched.
   */
  function Sweep(b: Book, openPrice: real, rate: real, date: Date): (r: Book)
    ensures r.accounts == SweepAccounts(b.accounts, openPrice, rate)
    ensures b.trades <= r.trades && r.daily == b.daily
  {
    var ids := IdsWithStatus(b.accounts, Filled);
    SweepFoldComplete(b.accounts, openPrice, rate);
    b.(accounts := SweepFold(b.accounts, ids, |ids|, openPrice, rate),
       trades := b.trades + SweepTrades(b.accounts, ids, |ids|, openPrice, rate, date))
  }

  /** Mark-to-market value of the pool at `close`. */
  function TotalValue(s: seq<Account>, close: real): real
    decreases |s|
  {
    if s == [] then 0.0 else TotalValue(s[..|s| - 1], close) + MarkedValue(s[|s| - 1], close)
  }

  /** The day's valuation record of a pool of twenty accounts. */
  function Valuation(s: seq<Account>, date: Date, close: real, initialCapital: real): (r: DailyResult)
    requires initialCapital != 0.0
    ensures r.filledAccounts == |IdsWithStatus(s, Filled)|
    ensures |s| == AccountCount ==> r.emptyAccounts == |IdsWithStatus(s, Empty)|
    ensures r.date == date && r.closePrice == close && r.totalValue == TotalValue(s, close)
    ensures r.totalReturnPct == (r.totalValue - initialCapital) / initialCapital * 100.0
    ensures r.totalValue == initialCapital ==> r.totalReturnPct == 0.0
  {
    StatusPartition(s);
    var total := TotalValue(s, close);
    var filled := |IdsWithStatus(s, Filled)|;
    DailyResult(date, close, total, filled, AccountCount - filled,
                (total - initialCapital) / initialCapital * 100.0)
  }

  /**
   * One bar of the driver: a bar without an average changes nothing; any
   * other bar may run the buy burst, always runs the sell sweep afterwards
   * (so accounts filled that day are eligible), and then appends exactly one
   * record valuing the accounts as they are after the day's trades.
   */
  function Day(b: Book, bar: Bar, prevClose: real, initialCapital: real): (r: Book)
    requires initialCapital != 0.0
    ensures |r.accounts| == |b.accounts|
    ensures b.trades <= r.trades
    ensures bar.ma60.None? ==> r == b
    ensures bar.ma60.Some? ==> r.daily == b.daily + [Valuation(r.accounts, bar.date, bar.close, initialCapital)]
    ensures bar.ma60.Some? ==>
      r.accounts == SweepAccounts(if Evaluate(bar.ma60.value, prevClose).buy
                                  then BurstAccounts(b.accounts, bar.open, CalculateStep(prevClose))
                                  else b.accounts,
                                  bar.open, Evaluate(bar.ma60.value, prevClose).threshold)
    ensures bar.ma60.Some? ==>
      r.trades == Sweep(if Evaluate(bar.ma60.value, prevClose).buy
                        then Burst(b, bar.open, CalculateStep(prevClose), bar.date)
                        else b,
                        bar.open, Evaluate(bar.ma60.value, prevClose).threshold, bar.date).trades
  {
    match bar.ma60
    case None => b
    case Some(ma) =>
      var sig := Evaluate(ma, prevClose);
      var b1 := if sig.buy then Burst(b, bar.open, CalculateStep(prevClose), bar.date) else b;
      var b2 := Sweep(b1, bar.open, sig.threshold, bar.date);
      b2.(daily := b2.daily + [Valuation(b2.accounts, bar.date, bar.close, initialCapital)])
  }

  /** Previous close seen by bar `i`: the preceding bar's close, or the seed for the first bar. */
  function PrevClose(bars: seq<Bar>, i: nat): real
    requires i < |bars|
  {
    if i == 0 then SeedPrevClose else bars[i - 1].close
  }

  /** The book after the first `n` bars of the window. */
  function RunFrom(b: Book, bars: seq<Bar>, n: nat, initialCapital: real): (r: Book)
    requires n <= |bars| && initialCapital != 0.0
    ensures |r.accounts| == |b.accounts| && b.trades <= r.trades && b.daily <= r.daily
    ensures |r.daily| <= |b.daily| + n
    decreases n
  {
    if n == 0 then b
    else Day(RunFrom(b, bars, n - 1, initialCapital), bars[n - 1], PrevClose(bars, n - 1), initialCapital)
  }
}
