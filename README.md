# SOXL trading simulators, modelled and verified in Dafny

This project models the two back-testing engines of the SOXL trading
scripts. It proves what their state changes do.

**The grid engine** (`scripts/january_simulation.py`) always creates
twenty accounts, numbered 1 to 20, each holding
`initial_capital / position_size`. The pool thus holds
`20 * initial_capital / position_size`, which is the whole capital only when
the position size is 20. Each account is *empty* (holding
cash) or *filled* (holding shares bought at a cost basis). Every bar of the
windowed price series is handled in four steps:

- It compares the 60-day average with the previous close. The first bar
  uses the seed close 31.40.
- It may run a *buy burst*. The k-th account that is empty at the start of
  the burst is bought at `open * 1.02 - step * k`, when that price is
  positive. The step is one percent of the previous close, rounded to one
  decimal.
- It always runs a *sell sweep* afterwards. Every account that is filled at
  the start of the sweep is sold at `open * 0.99` when its cost basis
  exceeds `open * (1 + rate)`. The rate is 0.09 in an up trend and 0.06
  otherwise.
- It appends one valuation record for the day.

A bar without an average is skipped entirely.

**The single-position simulator** (`scripts/trading_simulator.py`) works in
three passes:

- It writes a signal column: +1 or -1 from the close's percentage distance
  to its 60-day average, never repeating the previous row's nonzero signal.
- It runs a cash/shares state machine. A buy takes one tranche of
  `initial_capital / position_size`. A sell liquidates the whole holding.
- It summarises the run: final value, return, maximum drawdown from the
  running peak, and trade counts.

Modules:

- `Market` (`market.dfy`) and `Optional` (`optional.dfy`): shared vocabulary (dates, trade direction, `Option`).
- `GridModel` (`grid_model.dfy`): the grid engine's values and a pure specification of every operation. Each burst and sweep is given both as a loop-shaped fold and in closed form per account.
- `GridProperties` (`grid_properties.dfy`): what a burst, a sweep and a run guarantee. Covers the trade ledgers, the account invariant, the valuation of a fresh pool, and the fact that, from an all-empty pool, no trade ever happens for non-negative averages.
- `GridSimulator` (`grid_simulator.dfy`): the engine as a class over an `array<Account>` and two ledger fields. Every method is proved to leave exactly the state the specification describes.
- `PositionModel` (`position_model.dfy`): the single-position simulator's specification (signal rule, trading step, run, performance) and its properties.
- `PositionSimulator` (`position_simulator.dfy`): the signal loop over an array column, and the simulator class whose loops are proved equal to that specification.

Prices are exact reals. Account numbers are 1-based, as in the source; in
the array, index `k` holds account `k + 1`.

## Model

| member | source | states |
|---|---|---|
| GridModel.InitialAccounts | scripts/january_simulation.py:24-36 | the pool has twenty accounts |
| GridModel.Bought | scripts/january_simulation.py:71-75 | a buy fills the account at the given price as its cost basis and leaves its cash untouched |
| GridModel.BoughtValue | scripts/january_simulation.py:71-75 | the shares bought are worth exactly the account's cash at the fill price |
| GridModel.Sold | scripts/january_simulation.py:98-104 | a sell empties the account, clearing its shares and cost basis |
| GridModel.SoldValue | scripts/january_simulation.py:98-104 | the proceeds equal the filled account's value at the sale price, and no later close changes the emptied account's value |
| GridModel.Evaluate | scripts/january_simulation.py:150-164 | the sell threshold is 0.09 when the average is above the previous close and 0.06 otherwise; for a non-negative average the buy test never holds |
| GridModel.CalculateStep | scripts/january_simulation.py:54-56 | the step is a whole number of tenths within 0.05 of one percent of the previous close |
| GridModel.IdsWithStatus | scripts/january_simulation.py:58-64 | the listed account numbers are valid account numbers, no more than there are accounts |
| GridModel.IdsWithStatusSpec | scripts/january_simulation.py:58-64 | the list holds exactly the accounts with the status, each once, in ascending account number |
| GridModel.IdsPrefix | scripts/january_simulation.py:58-64 | the accounts listed from a prefix of the table come first in the full list |
| GridModel.IdAtRank | scripts/january_simulation.py:182 | an account with the status sits in the list at the position given by its rank |
| GridModel.RankOfId | scripts/january_simulation.py:182 | the t-th listed account has the status and rank t |
| GridModel.StatusPartition | scripts/january_simulation.py:213-218 | every account is counted as filled or as empty, never both |
| GridModel.BurstAccounts | scripts/january_simulation.py:172-185 | a burst keeps the number of accounts |
| GridModel.IdsAscending | scripts/january_simulation.py:58-64 | both lists are strictly ascending |
| GridModel.BurstFold | scripts/january_simulation.py:182-185 | each step of the burst loop keeps the number of accounts |
| GridModel.BurstFoldUntouched | scripts/january_simulation.py:182-185 | an account listed later than the loop has reached is not yet changed |
| GridModel.BurstFoldAt | scripts/january_simulation.py:182-185 | after n steps, an account has been bought exactly when it was empty, ranks below n and its staggered price is positive; every other account is as it was |
| GridModel.BurstFoldComplete | scripts/january_simulation.py:172-185 | the complete burst loop fills each empty account at the staggered price of its rank when positive, and leaves filled accounts untouched |
| GridModel.BurstStep | scripts/january_simulation.py:182-185 | one iteration finds its account still empty and unchanged, buys it exactly when the price is positive, and appends its BUY trade |
| GridModel.SweepAccounts | scripts/january_simulation.py:187-199 | a sweep keeps the number of accounts |
| GridModel.SweepFold | scripts/january_simulation.py:192-199 | each step of the sweep loop keeps the number of accounts |
| GridModel.SweepFoldUntouched | scripts/january_simulation.py:192-199 | an account listed later than the loop has reached is not yet changed |
| GridModel.SweepFoldAt | scripts/january_simulation.py:192-199 | after n steps, an account has been swept exactly when it was filled and ranks below n |
| GridModel.SweepFoldComplete | scripts/january_simulation.py:187-199 | the complete sweep sells exactly the filled accounts whose cost basis passes the sell test, and changes no other account |
| GridModel.SweepStep | scripts/january_simulation.py:192-199 | one iteration finds its account still filled and unchanged, sells it at 99% of the open exactly when it passes the test, and appends its SELL trade |
| GridModel.BurstPrice | scripts/january_simulation.py:179-183 | the k-th staggered buy price is 102% of the open less k steps |
| GridModel.BuyTrade | scripts/january_simulation.py:82-89 | the BUY record: date, account, price, the shares the cash buys at that price, and the cash as amount |
| GridModel.SellTrade | scripts/january_simulation.py:107-114 | the SELL record: date, account, price, the shares held, and their value at that price as amount |
| GridModel.BurstTrades | scripts/january_simulation.py:182-185 | the BUY trades the burst loop appends, one per listed account whose staggered price is positive, in list order |
| GridModel.AboveSellLine | scripts/january_simulation.py:198 | the sell test: the cost basis lies strictly above the open raised by the rate |
| GridModel.SellsAt | scripts/january_simulation.py:192-199 | an account is sold by the sweep exactly when it is filled and passes the sell test |
| GridModel.SweepTrades | scripts/january_simulation.py:192-199 | the SELL trades the sweep loop appends, one per listed account passing the sell test, in list order |
| GridModel.MarkedValue | scripts/january_simulation.py:206-211 | a filled account counts its shares at the close, any other account its cash |
| GridModel.TotalValue | scripts/january_simulation.py:203-211 | the pool's value is the sum of every account's marked value |
| GridModel.Burst | scripts/january_simulation.py:172-185 | after a burst the accounts are the closed-form burst; the trade ledger only grows and the daily ledger is untouched |
| GridModel.Sweep | scripts/january_simulation.py:187-199 | after a sweep the accounts are the closed-form sweep; the trade ledger only grows and the daily ledger is untouched |
| GridModel.Valuation | scripts/january_simulation.py:201-220 | the record carries the date, the close and the pool's total value at that close; it counts the filled accounts, and for twenty accounts the empty count is the rest; the return is the percentage change of the total value from the initial capital, zero when they are equal |
| GridModel.Day | scripts/january_simulation.py:125-167 | a bar without an average changes nothing; on any other bar the accounts are the sweep at the trend's threshold, applied after the burst when the buy test holds (so same-day fills are eligible); the trades are the burst's and then the sweep's; one record values the accounts after that bar's trades |
| GridModel.PrevClose | scripts/january_simulation.py:135-139 | the previous close is the preceding bar's close, or 31.40 for the first bar |
| GridModel.RunFrom | scripts/january_simulation.py:125-167 | a run over the bars in order keeps the pool size, only appends to both ledgers, and adds at most one record per bar |
| GridProperties.BurstTradesListed | scripts/january_simulation.py:182-185 | every BUY of a burst names a listed account, at a positive price, for that account's cash |
| GridProperties.BurstTradesAscending | scripts/january_simulation.py:182-185 | a burst records its BUY trades in ascending account order |
| GridProperties.BurstTradesPriced | scripts/january_simulation.py:182-185 | the BUY of the k-th listed account is at `open * 1.02 - step * k` |
| GridProperties.BurstTradesComplete | scripts/january_simulation.py:182-185 | every listed account whose staggered price is positive has its BUY trade |
| GridProperties.BurstTradeAt | scripts/january_simulation.py:82-89 | each BUY of a burst is for an empty account, dated that day, at the positive price of its rank, for the account's cash |
| GridProperties.BurstLedger | scripts/january_simulation.py:172-185 | a burst only appends to the ledger, and each appended trade is the BUY of an account empty at the start, at the price of its rank, for its cash |
| GridProperties.BurstLedgerComplete | scripts/january_simulation.py:172-185 | every account a burst fills has its BUY among the appended trades, and these are in ascending account order |
| GridProperties.SweepTradesListed | scripts/january_simulation.py:192-199 | every SELL of a sweep names a listed account that passes the sell test, at 99% of the open |
| GridProperties.SweepTradesAscending | scripts/january_simulation.py:192-199 | a sweep records its SELL trades in ascending account order |
| GridProperties.SweepTradesComplete | scripts/january_simulation.py:192-199 | every listed account that passes the sell test has its SELL trade |
| GridProperties.SweepTradeAt | scripts/january_simulation.py:107-114 | each SELL of a sweep is for a filled account passing the test, dated that day, for its shares times 99% of the open |
| GridProperties.SweepLedger | scripts/january_simulation.py:187-199 | a sweep only appends to the ledger, and each appended trade is the SELL of an account filled at the start that passes the test |
| GridProperties.SweepLedgerComplete | scripts/january_simulation.py:187-199 | every account a sweep empties has its SELL among the appended trades, and these are in ascending account order |
| GridProperties.NoneFilled | scripts/january_simulation.py:62-64 | with no filled account, the filled list is empty |
| GridProperties.UniformCashValue | scripts/january_simulation.py:206-211 | empty accounts holding c each are worth c per account at any close |
| GridProperties.FreshPoolValuationSized | scripts/january_simulation.py:201-220 | for any nonzero position size, a fresh pool of twenty accounts of initial_capital / position_size is valued at 20 * initial_capital / position_size, with no filled account, twenty empty ones and a return of (20 / position_size - 1) * 100 percent; it is valued at the initial capital exactly when the position size is 20 |
| GridProperties.FreshPoolValuation | scripts/january_simulation.py:201-220 | with position_size 20 (twenty accounts of initial_capital / 20), a fresh pool is valued at the initial capital, with no filled account and a zero return |
| GridProperties.BoughtWellFormed | scripts/january_simulation.py:66-75 | buying an empty account at a positive price yields positive shares whose cost is exactly the cash |
| GridProperties.SoldWellFormed | scripts/january_simulation.py:93-104 | selling a filled account at a positive price yields an empty account with positive cash |
| GridProperties.DayKeepsWellFormed | scripts/january_simulation.py:125-167 | a bar with a positive open keeps every account well formed |
| GridProperties.RunKeepsWellFormed | scripts/january_simulation.py:125-167 | over bars with positive opens, the account invariant holds after every bar |
| GridProperties.InitialWellFormed | scripts/january_simulation.py:24-36 | the initial pool is well formed when the per-account cash is positive |
| GridProperties.RunShape | scripts/january_simulation.py:125-167 | a run appends exactly one daily record per bar that has an average |
| GridProperties.QuietSweep | scripts/january_simulation.py:187-199 | with no filled account, a sweep changes nothing |
| GridProperties.NoTradesFromEmptyPool | scripts/january_simulation.py:150-164 | from an all-empty pool, over non-negative averages, no account ever changes and no trade is recorded |
| GridSimulator.Simulator.constructor | scripts/january_simulation.py:18-40 | twenty empty accounts of `initial_capital / position_size` each, with empty ledgers |
| GridSimulator.Simulator.BuyAccount | scripts/january_simulation.py:66-91 | refuses a non-empty account and changes nothing; otherwise buys it and appends exactly its BUY trade |
| GridSimulator.Simulator.SellAccount | scripts/january_simulation.py:93-116 | refuses a non-filled account and changes nothing; otherwise sells it and appends exactly its SELL trade |
| GridSimulator.Simulator.ExecuteBuySequence | scripts/january_simulation.py:172-185 | the accounts and the trade ledger end as the burst specification says |
| GridSimulator.Simulator.ExecuteSellCondition | scripts/january_simulation.py:187-199 | the accounts and the trade ledger end as the sweep specification says |
| GridSimulator.Simulator.RecordDailyResult | scripts/january_simulation.py:201-220 | appends the valuation of the current accounts and changes nothing else |
| GridSimulator.Simulator.ExecuteTrading | scripts/january_simulation.py:118-170 | the book ends as the run over all bars specifies, and both ledgers are returned |
| PositionModel.RatioPct | scripts/trading_simulator.py:77 | for a positive average, the ratio is non-negative exactly when the close is at or above the average |
| PositionModel.RatioBands | scripts/trading_simulator.py:77-85 | for a positive average, the ratio is at least 1% exactly when the close is at least 1.01 times the average, and at most -2% exactly when it is at most 0.98 times |
| PositionModel.AboveBuyBand | scripts/trading_simulator.py:77-80 | for a positive average, the close is in the buy band exactly when it is at least 1.01 times the average |
| PositionModel.BelowSellBand | scripts/trading_simulator.py:83-84 | for a positive average, the close is in the sell band exactly when it is at most 0.98 times the average |
| PositionModel.BandsDisjoint | scripts/trading_simulator.py:79-85 | for a positive average, a close cannot be in both the buy band and the sell band |
| PositionModel.SignalAt | scripts/trading_simulator.py:69-85 | a signal is -1, 0 or 1, and a nonzero signal differs from the previous row's |
| PositionModel.Signals | scripts/trading_simulator.py:64-87 | the column after n rows has n entries |
| PositionModel.SignalsPrefix | scripts/trading_simulator.py:69-85 | later rows never rewrite an earlier row's signal |
| PositionModel.SignalsWarmUp | scripts/trading_simulator.py:66-69 | the first 60 rows are silent |
| PositionModel.SignalsFollowRule | scripts/trading_simulator.py:80-85 | each row's final signal follows the rule given the final signal of the row before |
| PositionModel.SignalsSilent | scripts/trading_simulator.py:66-74 | every signal is -1, 0 or 1; rows in the warm-up and rows without an average are 0 |
| PositionModel.SignalsBuyRule | scripts/trading_simulator.py:77-81 | after the warm-up, a row is a buy if and only if it has an average, the ratio is at least 1% and the row before is not a buy |
| PositionModel.SignalsSellRule | scripts/trading_simulator.py:83-85 | after the warm-up, a row is a sell if and only if it has an average, the buy rule does not fire, the ratio is at most -2% and the row before is not a sell |
| PositionModel.SignalsNoRepeat | scripts/trading_simulator.py:80-85 | no two consecutive rows carry the same nonzero signal |
| PositionModel.BuysOn | scripts/trading_simulator.py:104 | a buy needs a buy signal and at least one tranche of cash |
| PositionModel.SellsOn | scripts/trading_simulator.py:122 | a sell needs the buy rule not to fire, a sell signal and a positive holding |
| PositionModel.MarkToMarket | scripts/trading_simulator.py:99 | the day's portfolio value is the cash plus the holding at the close |
| PositionModel.StepRow | scripts/trading_simulator.py:93-136 | each row appends its value, taken before that row's trade, and its date; the trade ledger grows by at most one entry |
| PositionModel.CountAction | scripts/trading_simulator.py:164-165 | a count never exceeds the number of trades |
| PositionModel.CountSplit | scripts/trading_simulator.py:164-174 | buy trades plus sell trades equal total trades |
| PositionModel.CountAppend | scripts/trading_simulator.py:164-165 | counting distributes over appending trades |
| PositionModel.StepCash | scripts/trading_simulator.py:104-124 | a buy lowers the cash by exactly one tranche; a sell makes it the cash plus the holding at the close; otherwise it is unchanged |
| PositionModel.StepShares | scripts/trading_simulator.py:104-136 | a buy adds `cash_per_trade / price` shares; a sell leaves none; otherwise the holding is unchanged |
| PositionModel.StepCounts | scripts/trading_simulator.py:103-135 | a BUY is logged exactly when the buy rule fires, a SELL exactly when the sell rule fires, and nothing otherwise |
| PositionModel.Run | scripts/trading_simulator.py:93-136 | after n rows there are n more values and dates; all three ledgers only grow, trades by at most one per row |
| PositionModel.RunKeeps | scripts/trading_simulator.py:93-101 | the ledgers after k rows are prefixes of the ledgers after any later row |
| PositionModel.RunRecordsRow | scripts/trading_simulator.py:98-101 | row k's recorded date is its date, and its value is the cash plus the holding at its close, taken before its trade |
| PositionModel.CashNonNegative | scripts/trading_simulator.py:104-124 | starting from non-negative cash with non-negative closes, the cash never goes negative |
| PositionModel.SharesNonNegative | scripts/trading_simulator.py:104-136 | with non-negative tranches and positive closes, the holding never goes negative |
| PositionModel.SpentIsProduct | scripts/trading_simulator.py:108 | arithmetic step for the tranche bound: k tranches of one buy each amount to k times the tranche |
| PositionModel.TranchesStep | scripts/trading_simulator.py:104-124 | one row keeps the accounting of cash against the tranches bought since a given state |
| PositionModel.BuysSpendTranches | scripts/trading_simulator.py:104-108 | while no sell has happened, the cash plus the tranches bought equals the starting cash, and the cash stays non-negative |
| PositionModel.TranchesFit | scripts/trading_simulator.py:26-28 | arithmetic step for the tranche bound: k positive tranches fit in position_size tranches only when k is at most position_size |
| PositionModel.InitialPortfolio | scripts/trading_simulator.py:26-36 | the starting state is worth the initial capital at every close, and all three ledgers are empty |
| PositionModel.PoolBound | scripts/trading_simulator.py:26-28 | a state reached from the start without a sell holds at most position_size buys |
| PositionModel.AtMostPositionSizeBuys | scripts/trading_simulator.py:104-108 | starting with position_size tranches of cash, at most position_size buys happen before the first sell |
| PositionModel.Peak | scripts/trading_simulator.py:154-158 | the running peak is at least the initial capital and every value seen, and is one of them |
| PositionModel.PeakMonotone | scripts/trading_simulator.py:156-158 | the running peak never decreases |
| PositionModel.Drawdown | scripts/trading_simulator.py:159 | a day's drawdown is non-negative, and at most 100% when the value is non-negative |
| PositionModel.MaxDrawdown | scripts/trading_simulator.py:159-161 | the maximum drawdown is non-negative and at least every day's drawdown |
| PositionModel.MaxDrawdownAttained | scripts/trading_simulator.py:154-161 | the maximum drawdown is either zero or the drawdown of some day |
| PositionModel.TotalReturnPct | scripts/trading_simulator.py:151 | the return is positive exactly when the final value exceeds the initial capital, and zero exactly when they are equal |
| PositionModel.Summary | scripts/trading_simulator.py:141-179 | no summary without a value history; otherwise the initial capital, the last value, the return on it, the maximum drawdown, the buy and sell counts (adding up to the total trade count), and the final cash and holding |
| PositionSimulator.CalculateSignals | scripts/trading_simulator.py:64-87 | the column written in place is the specified signal column, one per row, with no repeated nonzero signal |
| PositionSimulator.Simulator.constructor | scripts/trading_simulator.py:18-36 | tranche of `initial_capital / position_size`, all capital in cash, nothing held, empty ledgers |
| PositionSimulator.Simulator.TradeRow | scripts/trading_simulator.py:93-136 | one pass of the trading loop leaves the state the trading step specifies |
| PositionSimulator.Simulator.ExecuteTrading | scripts/trading_simulator.py:89-139 | the state after the loop is the run over all rows, and the trade ledger is returned |
| PositionSimulator.Simulator.CalculatePerformance | scripts/trading_simulator.py:141-179 | the result is the specified summary of the current state |

## Left out

- Loading the price data is not part of this model. That covers CSV reading, column cleanup and the pandas 60-day rolling mean. Both engines take rows that already carry their average as an optional value.
- File, console and chart output are not part of this model: `save_results`, `print_results`, `plot_results`, both `main` functions and `main.py`. So are the stdout re-wrapping, the warning filter and the font settings.
- The January window filter by timestamp is not modelled. The grid engine takes the bars already windowed, and dates are plain ordinals.
- `target_price`, `stop_loss_price`, `buy_price`, `target_profit_rate` and `stop_loss_rate` of a grid account are not modelled. They are written but never read.
- The single-position simulator's `shares` and `final_shares_value` are not modelled. They are never read.
- Floating point is not modelled: prices, cash and shares are exact reals.
- GridModel.CalculateStep: Python's `round` is modelled as round-half-to-even on exact reals. Near a tie, IEEE doubles can round the other way.
- GridSimulator.Simulator.constructor: requires a nonzero position size. Python raises on zero.
- GridSimulator.Simulator.BuyAccount: requires a nonzero price for an empty account. At a zero NumPy price the source would record an infinite share count. The burst only buys at positive prices, so this never excludes a call the engine makes.
- GridSimulator.Simulator.RecordDailyResult: requires a nonzero initial capital. There the source raises while the total is a plain Python number (no account filled and none sold before), and yields inf or NaN once it is a NumPy scalar.
- GridSimulator.Simulator.ExecuteTrading: requires a nonzero initial capital. There the source raises while the total is a plain Python number (no account filled and none sold before), and yields inf or NaN once it is a NumPy scalar.
- GridModel.Valuation: requires a nonzero initial capital. There the source raises while the total is a plain Python number (no account filled and none sold before), and yields inf or NaN once it is a NumPy scalar.
- GridModel.Day: requires a nonzero initial capital. There the source raises while the total is a plain Python number (no account filled and none sold before), and yields inf or NaN once it is a NumPy scalar.
- PositionSimulator.Simulator.constructor: requires a nonzero position size. Python raises on zero.
- PositionSimulator.Simulator.ExecuteTrading: requires a nonzero close on every buy-signal row. That includes rows where the cash is short of a tranche and the source divides by nothing. A buy at a zero close would divide by zero.
- PositionModel.Run: requires a nonzero close on every buy-signal row. That includes rows where the cash is short of a tranche and the source divides by nothing. A buy at a zero close would divide by zero.
- PositionSimulator.Simulator.CalculatePerformance: requires a positive initial capital. At zero the source yields inf or NaN, since the recorded values are NumPy scalars and warnings are silenced. A non-positive running peak would also divide by zero or flip the drawdown's sign.
- PositionModel.Summary: requires a positive initial capital. At zero the source yields inf or NaN, since the recorded values are NumPy scalars and warnings are silenced. A non-positive running peak would also divide by zero or flip the drawdown's sign.
- PositionModel.AboveBuyBand: a zero average is read as NumPy does. The ratio is then +inf, -inf or NaN according to the sign of the close, so only a positive close is in the buy band and only a negative close is in the sell band.
- The grid engine follows the code rather than the comments beside it. A buy keeps the account's cash field as it was. A sell fires when the cost basis is *above* `open * (1 + rate)`. A bar without an average records no daily result.
- Both buy triggers of the grid engine contradict the branch they sit in whenever the average is non-negative. The model keeps them as written. GridModel.Evaluate and GridProperties.NoTradesFromEmptyPool state the consequence: no buy ever happens.
- The single-position simulator's driver drops the rows before the trading period before computing signals. That driver is outside this model: the signal pass applies its 60-row warm-up to whatever rows it is given.
