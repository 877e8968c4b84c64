/**
 * Values and pure specification of the single-position simulator
 * (scripts/trading_simulator.py): daily signals from the distance between
 * the close and its 60-day average, a cash/shares state machine driven by
 * those signals, and the performance summary with its running-peak maximum
 * drawdown.
 *
 * Module PositionSimulator holds the imperative versions, each proved equal
 * to a function here; the lemmas below state what the strategy guarantees.
 */
module PositionModel {
  import opened Optional
  import opened Market

  /** Rows before this index never carry a signal: the average is not trusted yet. */
  const WarmUp: nat := 60

  /** Buy band: the close at least this many percent above its average. */
  const BuyBandPct: real := 1.0

  /** Sell band: the close at least this many percent below its average. */
  const SellBandPct: real := -2.0

  /** One day of price data; `ma60` is missing where the rolling average had too few closes. */
  datatype Row = Row(date: Date, close: real, ma60: Option<real>)

  /** A ledger entry, with the cash and the holding left after the trade. */
  datatype Trade = Trade(date: Date, action: Action, price: real, shares: real, amount: real,
                         cashRemaining: real, totalShares: real)

  /** The simulator's evolving state: cash, holding, and its three append-only ledgers. */
  datatype Portfolio = Portfolio(cash: real, totalShares: real, trades: seq<Trade>,
                                 values: seq<real>, dates: seq<Date>)

  /** The summary returned for a non-empty history. */
  datatype Performance = Performance(initialCapital: real, finalValue: real, totalReturnPct: real,
                                     maxDrawdownPct: real, totalTrades: nat, buyTrades: nat,
                                     sellTrades: nat, finalCash: real, finalShares: real)

  // ---------------------------------------------------------------- signals

  /** Percentage distance of `price` from a nonzero average `ma`. */
  function RatioPct(price: real, ma: real): (r: real)
    requires ma != 0.0
    ensures ma > 0.0 ==> (r >= 0.0 <==> price >= ma)
  {
    (price - ma) / ma * 100.0
  }

  /** Multiplying by a positive factor keeps the order. */
  lemma ScalePositive(x: real, y: real, m: real)
    requires m > 0.0
    ensures x <= y <==> x * m <= y * m
  {
    if x <= y {
      assert y * m - x * m == (y - x) * m;
    } else {
      assert x * m - y * m == (x - y) * m;
    }
  }

  /** For a positive average, the two band tests as distances of the close from the average. */
  lemma RatioBands(price: real, ma: real)
    requires ma != 0.0
    ensures ma > 0.0 ==> (RatioPct(price, ma) >= BuyBandPct <==> price >= ma * 1.01)
    ensures ma > 0.0 ==> (RatioPct(price, ma) <= SellBandPct <==> price <= ma * 0.98)
  {
    if ma > 0.0 {
      var x := (price - ma) / ma;
      assert x * ma == price - ma;
      ScalePositive(0.01, x, ma);
      ScalePositive(x, -0.02, ma);
    }
  }

  /**
   * The buy test `ratio >= 1.0`. A zero average makes the floating-point
   * ratio +inf, -inf or NaN according to the sign of the close, so the test
   * then holds exactly for a positive close.
   */
  predicate AboveBuyBand(price: real, ma: real)
    ensures ma > 0.0 ==> (AboveBuyBand(price, ma) <==> price >= ma * 1.01)
  {
    if ma == 0.0 then price > 0.0
    else
      RatioBands(price, ma);
      RatioPct(price, ma) >= BuyBandPct
  }

  /** The sell test `ratio <= -2.0`, with the same reading of a zero average. */
  predicate BelowSellBand(price: real, ma: real)
    ensures ma > 0.0 ==> (BelowSellBand(price, ma) <==> price <= ma * 0.98)
  {
    if ma == 0.0 then price < 0.0
    else
      RatioBands(price, ma);
      RatioPct(price, ma) <= SellBandPct
  }

  /** With a positive average, the two bands are disjoint. */
  lemma BandsDisjoint(price: real, ma: real)
    requires ma > 0.0
    ensures !(AboveBuyBand(price, ma) && BelowSellBand(price, ma))
  {
  }

  /** The signal of row `i`, given the signal already decided for row `i - 1`. */
  function SignalAt(row: Row, i: nat, prev: int): (r: int)
    ensures r == 0 || r == 1 || r == -1
    ensures r != 0 ==> r != prev
  {
    if i < WarmUp || row.ma60.None? then 0
    else if AboveBuyBand(row.close, row.ma60.value) && prev != 1 then 1
    else if BelowSellBand(row.close, row.ma60.value) && prev != -1 then -1
    else 0
  }

  /** The signal column after the first `n` rows have been processed, in order. */
  function Signals(rows: seq<Row>, n: nat): (r: seq<int>)
    requires n <= |rows|
    ensures |r| == n
    decreases n
  {
    if n == 0 then []
    else
      var prev := Signals(rows, n - 1);
      prev + [SignalAt(rows[n - 1], n - 1, if n == 1 then 0 else prev[n - 2])]
  }

  /** Processing more rows never rewrites the signal of an earlier row. */
  lemma {:induction false} SignalsPrefix(rows: seq<Row>, m: nat, n: nat)
    requires m <= n <= |rows|
    ensures Signals(rows, n)[..m] == Signals(rows, m)
    decreases n
  {
    if m < n {
      SignalsPrefix(rows, m, n - 1);
      assert Signals(rows, n)[..n - 1] == Signals(rows, n - 1);
    }
  }

  /** During the warm-up every row is silent. */
  lemma {:induction false} SignalsWarmUp(rows: seq<Row>, n: nat)
    requires n <= |rows| && n <= WarmUp
    ensures Signals(rows, n) == seq(n, _ => 0)
  {
    if n > 0 {
      SignalsWarmUp(rows, n - 1);
    }
  }

  /** Each row's signal in the finished column follows the rule, given the finished signal of the row before. */
  lemma SignalsFollowRule(rows: seq<Row>, i: nat)
    requires 0 < i < |rows|
    ensures Signals(rows, |rows|)[i] == SignalAt(rows[i], i, Signals(rows, |rows|)[i - 1])
  {
    SignalsPrefix(rows, i + 1, |rows|);
    SignalsPrefix(rows, i, |rows|);
    assert Signals(rows, |rows|)[i] == Signals(rows, i + 1)[i];
    assert Signals(rows, |rows|)[i - 1] == Signals(rows, i)[i - 1];
  }

  /**
   * Every signal is -1, 0 or 1, and the column is silent during the warm-up
   * and on rows without an average.
   */
  lemma SignalsSilent(rows: seq<Row>)
    ensures forall i :: 0 <= i < |rows| ==> Signals(rows, |rows|)[i] in {-1, 0, 1}
    ensures forall i :: 0 <= i < |rows| && (i < WarmUp || rows[i].ma60.None?) ==> Signals(rows, |rows|)[i] == 0
  {
    var s := Signals(rows, |rows|);
    forall i | 0 <= i < |rows|
      ensures s[i] in {-1, 0, 1}
      ensures i < WarmUp || rows[i].ma60.None? ==> s[i] == 0
    {
      if i == 0 {
        SignalsPrefix(rows, 1, |rows|);
        assert s[0] == Signals(rows, 1)[0];
      } else {
        SignalsFollowRule(rows, i);
      }
    }
  }

  /** After the warm-up, a row is a buy exactly when it has an average, its close is in the buy band and the row before is not a buy. */
  lemma SignalsBuyRule(rows: seq<Row>)
    ensures forall i :: WarmUp <= i < |rows| ==>
              (Signals(rows, |rows|)[i] == 1 <==>
                 rows[i].ma60.Some? && AboveBuyBand(rows[i].close, rows[i].ma60.value)
                 && Signals(rows, |rows|)[i - 1] != 1)
  {
    forall i | WarmUp <= i < |rows|
      ensures Signals(rows, |rows|)[i] == 1 <==>
                rows[i].ma60.Some? && AboveBuyBand(rows[i].close, rows[i].ma60.value)
                && Signals(rows, |rows|)[i - 1] != 1
    {
      SignalsFollowRule(rows, i);
    }
  }

  /**
   * After the warm-up, a row is a sell exactly when it has an average, the
   * buy rule does not fire, its close is in the sell band and the row
   * before is not a sell.
   */
  lemma SignalsSellRule(rows: seq<Row>)
    ensures forall i :: WarmUp <= i < |rows| ==>
              (Signals(rows, |rows|)[i] == -1 <==>
                 rows[i].ma60.Some?
                 && !(AboveBuyBand(rows[i].close, rows[i].ma60.value) && Signals(rows, |rows|)[i - 1] != 1)
                 && BelowSellBand(rows[i].close, rows[i].ma60.value) && Signals(rows, |rows|)[i - 1] != -1)
  {
    forall i | WarmUp <= i < |rows|
      ensures Signals(rows, |rows|)[i] == -1 <==>
                rows[i].ma60.Some?
                && !(AboveBuyBand(rows[i].close, rows[i].ma60.value) && Signals(rows, |rows|)[i - 1] != 1)
                && BelowSellBand(rows[i].close, rows[i].ma60.value) && Signals(rows, |rows|)[i - 1] != -1
    {
      SignalsFollowRule(rows, i);
    }
  }

  /** No two consecutive rows carry the same nonzero signal. */
  lemma SignalsNoRepeat(rows: seq<Row>)
    ensures forall i :: 1 <= i < |rows| && Signals(rows, |rows|)[i] != 0 ==>
              Signals(rows, |rows|)[i] != Signals(rows, |rows|)[i - 1]
  {
    forall i | 1 <= i < |rows|
      ensures Signals(rows, |rows|)[i] != 0 ==> Signals(rows, |rows|)[i] != Signals(rows, |rows|)[i - 1]
    {
      SignalsFollowRule(rows, i);
    }
  }

  // ------------------------------------------------------------ the trading day

  /** The buy rule: a buy signal with at least one tranche of cash left. */
  predicate BuysOn(p: Portfolio, signal: int, cashPerTrade: real)
  {
    signal == 1 && p.cash >= cashPerTrade
  }

  /** The sell rule, tried only when the buy rule did not fire: a sell signal while holding shares. */
  predicate SellsOn(p: Portfolio, signal: int, cashPerTrade: real)
  {
    !BuysOn(p, signal, cashPerTrade) && signal == -1 && p.totalShares > 0.0
  }

  /** The portfolio value recorded for a day: cash plus the holding at the close. */
  function MarkToMarket(p: Portfolio, close: real): real
  {
    p.cash + p.totalShares * close
  }

  /**
   * One row of the trading loop: record the value and the date, then buy
   * one tranche, or sell the whole holding, or do nothing.
   */
  function StepRow(p: Portfolio, row: Row, signal: int, cashPerTrade: real): (r: Portfolio)
    requires BuysOn(p, signal, cashPerTrade) ==> row.close != 0.0
    ensures r.values == p.values + [MarkToMarket(p, row.close)] && r.dates == p.dates + [row.date]
    ensures p.trades <= r.trades && |r.trades| <= |p.trades| + 1
  {
    var recorded := p.(values := p.values + [MarkToMarket(p, row.close)], dates := p.dates + [row.date]);
    if BuysOn(p, signal, cashPerTrade) then
      var bought := cashPerTrade / row.close;
      var cash := p.cash - cashPerTrade;
      var shares := p.totalShares + bought;
      recorded.(cash := cash, totalShares := shares,
                trades := p.trades + [Trade(row.date, Buy, row.close, bought, cashPerTrade, cash, shares)])
    else if SellsOn(p, signal, cashPerTrade) then
      var amount := p.totalShares * row.close;
      var cash := p.cash + amount;
      recorded.(cash := cash, totalShares := 0.0,
                trades := p.trades + [Trade(row.date, Sell, row.close, p.totalShares, amount, cash, 0.0)])
    else
      recorded
  }

  /** How many trades of the ledger go in direction `a`. */
  function CountAction(trades: seq<Trade>, a: Action): (r: nat)
    ensures r <= |trades|
  {
    if trades == [] then 0
    else CountAction(trades[..|trades| - 1], a) + (if trades[|trades| - 1].action == a then 1 else 0)
  }

  /** Every trade is a buy or a sell, so the two counts add up to the ledger's length. */
  lemma {:induction false} CountSplit(trades: seq<Trade>)
    ensures CountAction(trades, Buy) + CountAction(trades, Sell) == |trades|
  {
    if trades != [] {
      CountSplit(trades[..|trades| - 1]);
    }
  }

  /** Counting distributes over appending to a ledger. */
  lemma {:induction false} CountAppend(trades: seq<Trade>, more: seq<Trade>, a: Action)
    ensures CountAction(trades + more, a) == CountAction(trades, a) + CountAction(more, a)
    decreases |more|
  {
    if more != [] {
      CountAppend(trades, more[..|more| - 1], a);
      assert (trades + more)[..|trades + more| - 1] == trades + more[..|more| - 1];
      assert (trades + more)[|trades + more| - 1] == more[|more| - 1];
    } else {
      assert trades + more == trades;
    }
  }

  /** What one row does to the cash: a buy spends one tranche, a sell adds the holding's value at the close. */
  lemma StepCash(p: Portfolio, row: Row, signal: int, cashPerTrade: real)
    requires BuysOn(p, signal, cashPerTrade) ==> row.close != 0.0
    ensures StepRow(p, row, signal, cashPerTrade).cash ==
              if BuysOn(p, signal, cashPerTrade) then p.cash - cashPerTrade
              else if SellsOn(p, signal, cashPerTrade) then MarkToMarket(p, row.close)
              else p.cash
  {
  }

  /** What one row does to the holding: a buy adds `cashPerTrade / close` shares, a sell leaves none. */
  lemma StepShares(p: Portfolio, row: Row, signal: int, cashPerTrade: real)
    requires BuysOn(p, signal, cashPerTrade) ==> row.close != 0.0
    ensures StepRow(p, row, signal, cashPerTrade).totalShares ==
              if BuysOn(p, signal, cashPerTrade) then p.totalShares + cashPerTrade / row.close
              else if SellsOn(p, signal, cashPerTrade) then 0.0
              else p.totalShares
  {
  }

  /**
   * The ledger gains exactly one BUY when the buy rule fires, exactly one
   * SELL when the sell rule fires, and nothing on any other row.
   */
  lemma StepCounts(p: Portfolio, row: Row, signal: int, cashPerTrade: real)
    requires BuysOn(p, signal, cashPerTrade) ==> row.close != 0.0
    ensures CountAction(StepRow(p, row, signal, cashPerTrade).trades, Buy)
              == CountAction(p.trades, Buy) + (if BuysOn(p, signal, cashPerTrade) then 1 else 0)
    ensures CountAction(StepRow(p, row, signal, cashPerTrade).trades, Sell)
              == CountAction(p.trades, Sell) + (if SellsOn(p, signal, cashPerTrade) then 1 else 0)
  {
    var r := StepRow(p, row, signal, cashPerTrade);
    if BuysOn(p, signal, cashPerTrade) || SellsOn(p, signal, cashPerTrade) {
      var t := r.trades[|p.trades|];
      assert r.trades == p.trades + [t];
      assert BuysOn(p, signal, cashPerTrade) <==> t.action == Buy;
      CountAppend(p.trades, [t], Buy);
      CountAppend(p.trades, [t], Sell);
    } else {
      assert r.trades == p.trades;
    }
  }

  /** Every buy-signal row has a nonzero close, so no buy divides by zero. */
  predicate BuyPricesNonzero(rows: seq<Row>, signals: seq<int>)
    requires |signals| == |rows|
  {
    forall i :: 0 <= i < |rows| && signals[i] == 1 ==> rows[i].close != 0.0
  }

  /** The state after the first `n` rows of the trading loop. */
  function Run(p: Portfolio, rows: seq<Row>, signals: seq<int>, n: nat, cashPerTrade: real): (r: Portfolio)
    requires |signals| == |rows| && n <= |rows| && BuyPricesNonzero(rows, signals)
    ensures |r.values| == |p.values| + n && |r.dates| == |p.dates| + n
    ensures p.values <= r.values && p.dates <= r.dates
    ensures p.trades <= r.trades && |r.trades| <= |p.trades| + n
    decreases n
  {
    if n == 0 then p else StepRow(Run(p, rows, signals, n - 1, cashPerTrade), rows[n - 1], signals[n - 1], cashPerTrade)
  }

  /** Later rows only append: the state after `k` rows is a prefix, ledger by ledger, of the state after `n >= k` rows. */
  lemma {:induction false} RunKeeps(p: Portfolio, rows: seq<Row>, signals: seq<int>, k: nat, n: nat, cashPerTrade: real)
    requires |signals| == |rows| && k <= n <= |rows| && BuyPricesNonzero(rows, signals)
    ensures Run(p, rows, signals, k, cashPerTrade).values <= Run(p, rows, signals, n, cashPerTrade).values
    ensures Run(p, rows, signals, k, cashPerTrade).dates <= Run(p, rows, signals, n, cashPerTrade).dates
    ensures Run(p, rows, signals, k, cashPerTrade).trades <= Run(p, rows, signals, n, cashPerTrade).trades
    decreases n
  {
    if k < n {
      RunKeeps(p, rows, signals, k, n - 1, cashPerTrade);
    }
  }

  /**
   * The loop records one value and one date per row: for row `k`, its date,
   * and the cash plus the holding at that row's close, taken before that
   * row's trade; no later row rewrites them.
   */
  lemma RunRecordsRow(p: Portfolio, rows: seq<Row>, signals: seq<int>, k: nat, n: nat, cashPerTrade: real)
    requires |signals| == |rows| && k < n <= |rows| && BuyPricesNonzero(rows, signals)
    ensures Run(p, rows, signals, n, cashPerTrade).dates[|p.dates| + k] == rows[k].date
    ensures Run(p, rows, signals, n, cashPerTrade).values[|p.values| + k]
              == MarkToMarket(Run(p, rows, signals, k, cashPerTrade), rows[k].close)
  {
    RunKeeps(p, rows, signals, k + 1, n, cashPerTrade);
  }

  /**
   * Cash never goes negative: a buy needs a full tranche in hand, and a sell
   * only adds the proceeds of a positive holding at a non-negative close.
   */
  lemma {:induction false} CashNonNegative(p: Portfolio, rows: seq<Row>, signals: seq<int>, n: nat, cashPerTrade: real)
    requires |signals| == |rows| && n <= |rows| && BuyPricesNonzero(rows, signals)
    requires p.cash >= 0.0
    requires forall i :: 0 <= i < |rows| ==> rows[i].close >= 0.0
    ensures Run(p, rows, signals, n, cashPerTrade).cash >= 0.0
    decreases n
  {
    if n > 0 {
      CashNonNegative(p, rows, signals, n - 1, cashPerTrade);
      var q := Run(p, rows, signals, n - 1, cashPerTrade);
      StepCash(q, rows[n - 1], signals[n - 1], cashPerTrade);
      if SellsOn(q, signals[n - 1], cashPerTrade) {
        assert q.totalShares * rows[n - 1].close >= 0.0;
      }
    }
  }

  /** With non-negative tranches and positive closes, the holding never goes negative. */
  lemma {:induction false} SharesNonNegative(p: Portfolio, rows: seq<Row>, signals: seq<int>, n: nat, cashPerTrade: real)
    requires |signals| == |rows| && n <= |rows| && BuyPricesNonzero(rows, signals)
    requires p.totalShares >= 0.0 && cashPerTrade >= 0.0
    requires forall i :: 0 <= i < |rows| ==> rows[i].close > 0.0
    ensures Run(p, rows, signals, n, cashPerTrade).totalShares >= 0.0
    decreases n
  {
    if n > 0 {
      SharesNonNegative(p, rows, signals, n - 1, cashPerTrade);
      var q := Run(p, rows, signals, n - 1, cashPerTrade);
      StepShares(q, rows[n - 1], signals[n - 1], cashPerTrade);
      if BuysOn(q, signals[n - 1], cashPerTrade) {
        assert cashPerTrade / rows[n - 1].close >= 0.0;
      }
    }
  }

  /** The cash taken by `k` buys of one tranche each. */
  function Spent(k: nat, cashPerTrade: real): real
  {
    if k == 0 then 0.0 else Spent(k - 1, cashPerTrade) + cashPerTrade
  }

  /** `k` tranches of `cashPerTrade` amount to `k * cashPerTrade`. */
  lemma {:induction false} SpentIsProduct(k: nat, cashPerTrade: real)
    ensures Spent(k, cashPerTrade) == k as real * cashPerTrade
  {
    if k > 0 {
      SpentIsProduct(k - 1, cashPerTrade);
    }
  }

  /**
   * The tranche accounting between a starting state `p` and a later state
   * `q`: counts only grow, and while no sell has been logged since `p`, the
   * cash plus the tranches spent since `p` is the cash of `p`, and the cash
   * has stayed non-negative.
   */
  predicate TranchesAccounted(p: Portfolio, q: Portfolio, cashPerTrade: real)
  {
    && CountAction(p.trades, Sell) <= CountAction(q.trades, Sell)
    && CountAction(p.trades, Buy) <= CountAction(q.trades, Buy)
    && (CountAction(q.trades, Sell) == CountAction(p.trades, Sell) ==>
          && q.cash + Spent(CountAction(q.trades, Buy) - CountAction(p.trades, Buy), cashPerTrade) == p.cash
          && (p.cash >= 0.0 ==> q.cash >= 0.0))
  }

  /** One row keeps the tranche accounting. */
  lemma TranchesStep(p: Portfolio, q: Portfolio, row: Row, signal: int, cashPerTrade: real)
    requires BuysOn(q, signal, cashPerTrade) ==> row.close != 0.0
    requires TranchesAccounted(p, q, cashPerTrade)
    ensures TranchesAccounted(p, StepRow(q, row, signal, cashPerTrade), cashPerTrade)
  {
    var r := StepRow(q, row, signal, cashPerTrade);
    StepCash(q, row, signal, cashPerTrade);
    StepCounts(q, row, signal, cashPerTrade);
    var k := CountAction(q.trades, Buy) - CountAction(p.trades, Buy);
    if BuysOn(q, signal, cashPerTrade) {
      assert CountAction(r.trades, Buy) - CountAction(p.trades, Buy) == k + 1;
      assert Spent(k + 1, cashPerTrade) == Spent(k, cashPerTrade) + cashPerTrade;
      assert r.cash == q.cash - cashPerTrade;
    } else if SellsOn(q, signal, cashPerTrade) {
      assert CountAction(r.trades, Sell) == CountAction(q.trades, Sell) + 1;
    } else {
      assert r.cash == q.cash && r.trades == q.trades;
    }
  }

  /**
   * While no sell has been made, each buy has taken exactly one tranche out
   * of the cash: the cash plus the tranches spent is the starting cash, and
   * the cash has stayed non-negative.
   */
  lemma {:induction false} BuysSpendTranches(p: Portfolio, rows: seq<Row>, signals: seq<int>, n: nat, cashPerTrade: real)
    requires |signals| == |rows| && n <= |rows| && BuyPricesNonzero(rows, signals)
    ensures TranchesAccounted(p, Run(p, rows, signals, n, cashPerTrade), cashPerTrade)
    decreases n
  {
    if n > 0 {
      BuysSpendTranches(p, rows, signals, n - 1, cashPerTrade);
      TranchesStep(p, Run(p, rows, signals, n - 1, cashPerTrade), rows[n - 1], signals[n - 1], cashPerTrade);
    }
  }

  /** `k` tranches fit in `positionSize` tranches only when `k <= positionSize`. */
  lemma TranchesFit(k: nat, positionSize: nat, cashPerTrade: real)
    requires cashPerTrade > 0.0
    requires k as real * cashPerTrade <= positionSize as real * cashPerTrade
    ensures k <= positionSize
  {
  }

  /** The state the simulator starts from: all capital in cash, nothing held, empty ledgers. */
  function InitialPortfolio(initialCapital: real): (r: Portfolio)
    ensures forall close :: MarkToMarket(r, close) == initialCapital
    ensures r.trades == [] && r.values == [] && r.dates == []
  {
    Portfolio(initialCapital, 0.0, [], [], [])
  }

  /** From the initial portfolio, a state reached without any sell holds at most `positionSize` buys. */
  lemma PoolBound(r: Portfolio, initialCapital: real, positionSize: nat)
    requires positionSize > 0 && initialCapital > 0.0
    requires TranchesAccounted(InitialPortfolio(initialCapital), r, initialCapital / positionSize as real)
    requires CountAction(r.trades, Sell) == 0
    ensures CountAction(r.trades, Buy) <= positionSize
  {
    var cpt := initialCapital / positionSize as real;
    var buys := CountAction(r.trades, Buy);
    assert r.cash + Spent(buys, cpt) == initialCapital && r.cash >= 0.0;
    SpentIsProduct(buys, cpt);
    assert initialCapital == positionSize as real * cpt;
    TranchesFit(buys, positionSize, cpt);
  }

  /**
   * Starting with `positionSize` tranches of cash, at most `positionSize`
   * buys can happen before the first sell.
   */
  lemma AtMostPositionSizeBuys(rows: seq<Row>, signals: seq<int>, n: nat, initialCapital: real, positionSize: nat)
    requires |signals| == |rows| && n <= |rows| && BuyPricesNonzero(rows, signals)
    requires positionSize > 0 && initialCapital > 0.0
    requires CountAction(Run(InitialPortfolio(initialCapital), rows, signals, n, initialCapital / positionSize as real).trades, Sell) == 0
    ensures CountAction(Run(InitialPortfolio(initialCapital), rows, signals, n, initialCapital / positionSize as real).trades, Buy) <= positionSize
  {
    var cpt := initialCapital / positionSize as real;
    BuysSpendTranches(InitialPortfolio(initialCapital), rows, signals, n, cpt);
    PoolBound(Run(InitialPortfolio(initialCapital), rows, signals, n, cpt), initialCapital, positionSize);
  }

  // ------------------------------------------------------------- performance

  /** The running peak after the first `n` values, starting from the initial capital. */
  function Peak(initialCapital: real, values: seq<real>, n: nat): (r: real)
    requires n <= |values|
    ensures r >= initialCapital
    ensures forall j :: 0 <= j < n ==> r >= values[j]
    ensures r == initialCapital || exists j :: 0 <= j < n && r == values[j]
    decreases n
  {
    if n == 0 then initialCapital
    else
      var prev := Peak(initialCapital, values, n - 1);
      if values[n - 1] > prev then values[n - 1] else prev
  }

  /** The running peak never decreases. */
  lemma {:induction false} PeakMonotone(initialCapital: real, values: seq<real>, m: nat, n: nat)
    requires m <= n <= |values|
    ensures Peak(initialCapital, values, m) <= Peak(initialCapital, values, n)
    decreases n
  {
    if m < n {
      PeakMonotone(initialCapital, values, m, n - 1);
    }
  }

  /** Percentage fall of day `i`'s value from the running peak including that day. */
  function Drawdown(initialCapital: real, values: seq<real>, i: nat): (r: real)
    requires initialCapital > 0.0 && i < |values|
    ensures r >= 0.0
    ensures values[i] >= 0.0 ==> r <= 100.0
  {
    var peak := Peak(initialCapital, values, i + 1);
    (peak - values[i]) / peak * 100.0
  }

  /** The largest drawdown among the first `n` days: never negative and at least every day's drawdown. */
  function MaxDrawdown(initialCapital: real, values: seq<real>, n: nat): (r: real)
    requires initialCapital > 0.0 && n <= |values|
    ensures r >= 0.0
    ensures forall i :: 0 <= i < n ==> r >= Drawdown(initialCapital, values, i)
    decreases n
  {
    if n == 0 then 0.0
    else
      var prev := MaxDrawdown(initialCapital, values, n - 1);
      var d := Drawdown(initialCapital, values, n - 1);
      if d > prev then d else prev
  }

  /** The maximum drawdown is attained: it is zero or the drawdown of one of the first `n` days. */
  lemma {:induction false} MaxDrawdownAttained(initialCapital: real, values: seq<real>, n: nat)
    requires initialCapital > 0.0 && n <= |values|
    ensures var m := MaxDrawdown(initialCapital, values, n);
      m == 0.0 || exists i :: 0 <= i < n && m == Drawdown(initialCapital, values, i)
    decreases n
  {
    if n > 0 {
      MaxDrawdownAttained(initialCapital, values, n - 1);
    }
  }

  /** One step of the running peak. */
  lemma PeakStep(initialCapital: real, values: seq<real>, i: nat, peak: real)
    requires i < |values| && peak == Peak(initialCapital, values, i)
    ensures Peak(initialCapital, values, i + 1) == if values[i] > peak then values[i] else peak
  {
  }

  /** One step of the maximum drawdown, given day `i`'s peak. */
  lemma MaxDrawdownStep(initialCapital: real, values: seq<real>, i: nat, peak: real, maxDrawdown: real)
    requires initialCapital > 0.0 && i < |values|
    requires peak == Peak(initialCapital, values, i + 1)
    requires maxDrawdown == MaxDrawdown(initialCapital, values, i)
    ensures var d := (peak - values[i]) / peak * 100.0;
      MaxDrawdown(initialCapital, values, i + 1) == if d > maxDrawdown then d else maxDrawdown
  {
  }

  /** Percentage change from the initial capital to `finalValue`. */
  function TotalReturnPct(initialCapital: real, finalValue: real): (r: real)
    requires initialCapital > 0.0
    ensures r > 0.0 <==> finalValue > initialCapital
    ensures r == 0.0 <==> finalValue == initialCapital
  {
    (finalValue - initialCapital) / initialCapital * 100.0
  }

  /** The summary of a non-empty history, field by field. */
  lemma SummaryFields(initialCapital: real, p: Portfolio)
    requires initialCapital > 0.0 && p.values != []
    ensures Summary(initialCapital, p) ==
      Some(Performance(initialCapital, p.values[|p.values| - 1],
                       TotalReturnPct(initialCapital, p.values[|p.values| - 1]),
                       MaxDrawdown(initialCapital, p.values, |p.values|), |p.trades|,
                       CountAction(p.trades, Buy), CountAction(p.trades, Sell), p.cash, p.totalShares))
  {
  }

  /** The performance summary of a portfolio: nothing before the first recorded day. */
  function Summary(initialCapital: real, p: Portfolio): (r: Option<Performance>)
    requires initialCapital > 0.0
    ensures r.None? <==> p.values == []
    ensures r.Some? ==>
              && r.value.finalValue == p.values[|p.values| - 1]
              && r.value.buyTrades + r.value.sellTrades == r.value.totalTrades == |p.trades|
              && r.value.finalCash == p.cash && r.value.finalShares == p.totalShares
              && r.value.initialCapital == initialCapital
              && r.value.totalReturnPct == TotalReturnPct(initialCapital, r.value.finalValue)
              && r.value.maxDrawdownPct == MaxDrawdown(initialCapital, p.values, |p.values|)
              && r.value.buyTrades == CountAction(p.trades, Buy)
              && r.value.sellTrades == CountAction(p.trades, Sell)
              && r.value.maxDrawdownPct >= 0.0
              && (forall i :: 0 <= i < |p.values| ==> r.value.maxDrawdownPct >= Drawdown(initialCapital, p.values, i))
  {
    if p.values == [] then None
    else
      CountSplit(p.trades);
      var finalValue := p.values[|p.values| - 1];
      Some(Performance(initialCapital, finalValue, TotalReturnPct(initialCapital, finalValue),
                       MaxDrawdown(initialCapital, p.values, |p.values|), |p.trades|,
                       CountAction(p.trades, Buy), CountAction(p.trades, Sell), p.cash, p.totalShares))
  }
}
