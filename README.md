# Stock portfolio ledger, ranking analyzer and subscriber keys

A Dafny model of the core of a stock-advice bot. It covers three parts. The
first is the portfolio ledger (`assets/portfolio.py`): a share table of lots,
buying, selling first-in-first-out, valuing at market prices, profitability,
and a history of net worth. The second is the analyzer
(`analyzer/finance_analyzer.py`), which ranks stocks by their E/P and ROE
ranks, fetches analyst estimates for the top of the ranking, and keeps the
undervalued and best-rated ones for the day's ranking file. The third is
the column-key parser of the subscriber database (`bot/database_manager.py`)
and its zip of keys with rows.

Files and modules:

- `wrappers.dfy` (`Wrappers`): the `Option` type.
- `lots.dfy` (`Lots`): the `Lot` row of the share table and the selections
  the ledger makes of it: by ticker, open or closed, shares, tickers, lots
  sorted by opening date.
- `fifo.dfy` (`Fifo`): the sale. `Liquidate` closes the oldest open lots and
  splits one lot when the sale ends inside it. `SellLots` is the new share
  table.
- `valuation.dfy` (`Valuation`): market value under a price lookup, and the
  position dictionary.
- `portfolio.dfy` (`PortfolioLedger`): the `Portfolio` class. Its fields are
  the share table, the history, and the initial and free funds. Its methods
  update them in place. The FIFO split is done in a loop over the cumulative
  sums, as in the source.
- `calendar.dfy` (`Calendar`): proleptic Gregorian dates, the weekday, the
  roll-back from a weekend to the Friday, and the ranking file name.
- `ranking.dfy` (`Ranking`): the joined and ordered ranking.
- `candidates.dfy` (`Candidates`): estimates with five attempts per ticker,
  undervalued candidates, and the best companies. The day's file lives in a
  store, written on weekdays and read at weekends.
- `sql_keys.dfy` (`SqlKeys`): `_get_keys` over the lines of the script, and the
  `dict(zip(keys, values))` of the subscriber rows.

Modelling choices:

- Money and prices are `real`.
- Share counts are `int`.
- Ledger dates are day numbers.
- The market price lookup is a map from ticker to price. A ticker missing
  from the map is a failed lookup, and valuation returns `None`.
- A calendar date is `Date(year, month, day)`. Its ordinal and weekday follow
  Python's `toordinal` and `weekday`.
- The network fetches, the whitelist, the clock and the cloud store become
  parameters. `fetch(t, i)` is the outcome of the i-th attempt to fetch the
  estimate of `t`.

## Model

| member | source | states |
|---|---|---|
| Lots.Close | assets/portfolio.py:97-99 | a closed lot keeps ticker, size and opening data and records the sale price and date |
| Lots.CloseAll | assets/portfolio.py:97-99 | closing a run of lots keeps its length |
| Lots.CloseAllIndex | assets/portfolio.py:97-99 | a sequence that closes the lots one for one is the closed run |
| Lots.Tickers | assets/portfolio.py:197-198 | a ticker is listed exactly when some lot has it |
| Lots.OfTickerAppend | assets/portfolio.py:66 | selecting a ticker's rows distributes over concatenation |
| Lots.OtherTickersAppend | assets/portfolio.py:101 | selecting the other tickers' rows distributes over concatenation |
| Lots.OpenLotsAppend | assets/portfolio.py:68 | selecting open rows distributes over concatenation |
| Lots.ClosedLotsAppend | assets/portfolio.py:67 | selecting closed rows distributes over concatenation |
| Lots.SharesAppend | assets/portfolio.py:71 | the share count of a concatenation is the sum of the counts |
| Lots.OfTickerAllOf | assets/portfolio.py:66 | selecting a ticker from rows all of that ticker keeps them all |
| Lots.OfTickerNoneOf | assets/portfolio.py:66 | selecting a ticker from rows with none of it gives nothing |
| Lots.OtherTickersNoneOf | assets/portfolio.py:101 | rows all of one ticker have no rows of other tickers |
| Lots.OtherTickersAllOther | assets/portfolio.py:101 | rows without a ticker are all other-ticker rows |
| Lots.OfTickerOfOthers | assets/portfolio.py:66-101 | taking the rows of another ticker is unaffected by first dropping `t` |
| Lots.OpenLotsAllOpen | assets/portfolio.py:68 | open rows are kept whole by the open selection |
| Lots.ClosedLotsAllOpen | assets/portfolio.py:67 | open rows have no closed rows |
| Lots.OpenLotsAllClosed | assets/portfolio.py:68 | closed rows have no open rows |
| Lots.ClosedLotsAllClosed | assets/portfolio.py:67 | closed rows are kept whole by the closed selection |
| Lots.OpenLotsOfTicker | assets/portfolio.py:66-68 | selecting the ticker and then the open rows is the same as the reverse order |
| Lots.SharesSplitByState | assets/portfolio.py:67-68 | every share is in an open or a closed row |
| Lots.SharesPositive | assets/portfolio.py:71 | well-formed lots hold a non-negative share count, positive when there is a lot |
| Lots.OpenTotalPositive | assets/portfolio.py:192-198 | a ticker has open shares exactly when it appears among the open lots |
| Lots.TickersOfTicker | assets/portfolio.py:66 | a ticker occurs exactly when its selection is non-empty |
| Lots.SelectionsWellFormed | assets/portfolio.py:66-68 | the selections of well-formed rows are well formed |
| Lots.SelectionsSelect | assets/portfolio.py:66-68 | each selection holds only the rows it asks for |
| Lots.OfTickerSelects | assets/portfolio.py:66 | the ticker selection has only that ticker |
| Lots.OtherTickersSelect | assets/portfolio.py:101 | the other-ticker selection has none of the ticker |
| Lots.OpenLotsSelect | assets/portfolio.py:68 | the open selection has only open rows |
| Lots.ClosedLotsSelect | assets/portfolio.py:67 | the closed selection has only closed rows |
| Lots.SameRows | assets/portfolio.py:77 | a reordering keeps well-formedness, openness and the ticker |
| Lots.OpenTotalAppendOpen | assets/portfolio.py:48-51 | appending an open lot adds its size to its own ticker's open total only |
| Lots.InsertByDate | assets/portfolio.py:77 | inserting by opening date adds exactly one row |
| Lots.InsertSorted | assets/portfolio.py:77 | insertion keeps the rows ordered by opening date |
| Lots.InsertShares | assets/portfolio.py:77 | insertion adds exactly the new lot's shares |
| Lots.SortByOpenDate | assets/portfolio.py:77 | the sort is ordered by opening date and is a permutation |
| Lots.SortByOpenDateStable | assets/portfolio.py:77 | the date sort keeps the rows opened on any one day in table order |
| Lots.InsertByDateStable | assets/portfolio.py:77 | insertion puts the new row in front of the rows opened on its day |
| Lots.SortShares | assets/portfolio.py:77-78 | sorting keeps the share count |
| Fifo.LiquidateShares | assets/portfolio.py:89-93 | liquidation neither creates nor destroys shares |
| Fifo.LiquidateMoves | assets/portfolio.py:77-99 | selling n of the open shares closes exactly n and leaves the rest open |
| Fifo.LiquidateMovesClose | assets/portfolio.py:79-99 | the same when the first lot is sold whole |
| Fifo.LiquidateMovesSplit | assets/portfolio.py:88-99 | the same when the sale ends inside the first lot, so it is split |
| Fifo.LiquidateKeeps | assets/portfolio.py:89-99 | liquidated lots stay well formed and of their ticker, and each closed lot carries the sale price and date |
| Fifo.LiquidateDatesFrom | assets/portfolio.py:89-91 | no lot after liquidation is older than the oldest before it |
| Fifo.LiquidateFifo | assets/portfolio.py:77-99 | on date-sorted open lots, no closed lot was opened after a lot that stays open |
| Fifo.LiquidateNothing | assets/portfolio.py:79-88 | a sale of zero or fewer shares changes nothing |
| Fifo.LiquidateLength | assets/portfolio.py:88-95 | liquidation adds at most one row |
| Fifo.LiquidateByCumulativeSums | assets/portfolio.py:78-99 | the recursive liquidation is the source's cumulative-sum procedure: close the k lots whose running total is at most n, then split lot k |
| Fifo.CumulativeClose | assets/portfolio.py:78-99 | one step of that correspondence when the first lot is closed whole |
| Fifo.SplitTailShift | assets/portfolio.py:89-95 | the split tail is the same after dropping a closed lot |
| Fifo.CumulativeStep | assets/portfolio.py:78-82 | the running totals shift by the first lot's size |
| Fifo.SellParts | assets/portfolio.py:66-102 | the three parts of the new table are well formed and keep their ticker and state |
| Fifo.SellOfTicker | assets/portfolio.py:66-102 | after a sale, the ticker's rows are its earlier closed rows, then its liquidated open rows |
| Fifo.RowsOfTicker | assets/portfolio.py:102 | the ticker's rows of the concatenated table skip the other tickers |
| Fifo.SellWellFormed | assets/portfolio.py:66-103 | a sale keeps the table well formed |
| Fifo.StatesOfTicker | assets/portfolio.py:102 | the closed rows come first in the ticker's rows |
| Fifo.SellConservesShares | assets/portfolio.py:66-104 | a sale of n moves exactly n of the ticker's shares from open to closed |
| Fifo.SellKeepsOtherTickers | assets/portfolio.py:101-102 | a sale leaves every other ticker's rows as they were, in order |
| Fifo.SellIsFifo | assets/portfolio.py:66-102 | a sale keeps the ticker's closed rows in front, closes only at the sale price and date, and closes the oldest lots first |
| Valuation.ScaleIsProduct | assets/portfolio.py:168 | the repeated sum `Scale(p, n)` is the product `p * n` |
| Valuation.ScaleAdd | assets/portfolio.py:168-169 | `Scale` is additive in the share count |
| Valuation.ScaleStep | assets/portfolio.py:168 | one more share adds the price once |
| Valuation.ValueCons | assets/portfolio.py:165-169 | a table is priced when its first row and the rest are, and its value is their sum |
| Valuation.PricedIndex | assets/portfolio.py:165-168 | a table is priced exactly when each of its rows has a quote |
| Valuation.ValueAppend | assets/portfolio.py:165-169 | value is additive over concatenation |
| Valuation.ValueAllClosed | assets/portfolio.py:162 | closed rows add nothing to the value |
| Valuation.ValueOfOneTicker | assets/portfolio.py:165-169 | rows of one ticker are worth its price times its open shares |
| Valuation.ValueSnoc | assets/portfolio.py:165-169 | one more open row adds its price times its size |
| Valuation.ValuePartition | assets/portfolio.py:165-169 | the value is the ticker's value plus the other tickers' value |
| Valuation.ValueOpenLots | assets/portfolio.py:162-169 | valuing the whole table is valuing its open rows |
| Valuation.PricedTicker | assets/portfolio.py:168 | a priced table has a quote for every ticker it holds open |
| Valuation.SellValue | assets/portfolio.py:66-104 | selling n shares lowers the market value by n at the market price |
| Valuation.ValueBySelection | assets/portfolio.py:165-169 | the value is the price times the ticker's open total plus the other tickers' value |
| Valuation.ValueOfSold | assets/portfolio.py:77-99 | the liquidated rows are worth the price times the unsold shares |
| Valuation.ValueOfRemainder | assets/portfolio.py:97-99 | rows with total - n open shares are worth total - n at the price |
| Valuation.ValueOfClosed | assets/portfolio.py:67 | the earlier closed rows are worth nothing |
| Valuation.ValueOfThree | assets/portfolio.py:102 | the value of the three-part table is the sum of the parts |
| Valuation.SaleRemainder | assets/portfolio.py:77-99 | liquidation leaves total - n open shares of the ticker |
| Valuation.BuyValue | assets/portfolio.py:48-51 | a bought lot adds n shares at the market price to the value |
| Valuation.SaleAtMarketKeepsWorth | assets/portfolio.py:97-104 | selling at the market price leaves net worth unchanged |
| Valuation.BuyAtMarketKeepsWorth | assets/portfolio.py:43-53 | buying at the market price leaves net worth unchanged |
| Valuation.PositionsFacts | assets/portfolio.py:192-198 | a ticker is among the open lots exactly when its open total is positive, and its open shares are its open total |
| Valuation.Positions | assets/portfolio.py:192-198 | the position dictionary maps each ticker with open shares to its open total, and no other ticker |
| Valuation.PositionsAre | assets/portfolio.py:192-198 | any map with those keys and counts is the position dictionary |
| Valuation.BuyPositions | assets/portfolio.py:48-51 | a buy adds its shares to the ticker's position |
| Valuation.SellPositions | assets/portfolio.py:66-103 | a sale lowers the ticker's position by n and drops it when it reaches zero; other positions are unchanged |
| Valuation.PositionsAfterSale | assets/portfolio.py:192-198 | positions follow from the open totals |
| Valuation.MapAfterSale | assets/portfolio.py:192-198 | helper: a map lowered at one key is the update or the removal there |
| Valuation.BuyThenSellPositions | assets/portfolio.py:33-105 | buying n shares and then selling n restores the positions |
| Valuation.RestoredPositions | assets/portfolio.py:192-198 | helper: raising a count by n and lowering it by n restores the map |
| PortfolioLedger.Portfolio.constructor | assets/portfolio.py:15-27 | a new portfolio has no lots, no history, and 100000 initial and free funds |
| PortfolioLedger.Portfolio.Buy | assets/portfolio.py:43-54 | a buy succeeds exactly when the cost fits the free funds; it then appends the open lot and pays the cost, otherwise it changes nothing |
| PortfolioLedger.Portfolio.Sell | assets/portfolio.py:66-105 | a sale succeeds exactly when that many shares are open; the table becomes the FIFO sale and the proceeds are added, otherwise it changes nothing |
| PortfolioLedger.Portfolio.GetAllFunds | assets/portfolio.py:157-171 | the funds are the free funds plus the open lots at market prices, and fail exactly when an open lot has no quote |
| PortfolioLedger.Portfolio.TotalProfitability | assets/portfolio.py:173-178 | profitability is net worth over initial funds minus one; it is positive exactly on a gain and zero exactly on break-even |
| PortfolioLedger.Portfolio.UpdateHistory | assets/portfolio.py:200-204 | today's entry becomes the net worth and every other day is kept |
| PortfolioLedger.Portfolio.RangeProfitability | assets/portfolio.py:180-190 | the result is the ratio between the first recorded day at or after `first` and the last recorded day at or before `last` |
| PortfolioLedger.BuyThenSell | assets/portfolio.py:33-105 | buying and then selling the same shares at one price restores the free funds and the positions |
| PortfolioLedger.SoldPrefix | assets/portfolio.py:78-86 | finds the sold lots: those whose running total stays within the sale, with `lower_bound` their total |
| PortfolioLedger.SharesStep | assets/portfolio.py:78 | helper: the running total grows by each lot's size |
| PortfolioLedger.LiquidateOpen | assets/portfolio.py:77-99 | the in-place split and close of the source yields the FIFO liquidation |
| PortfolioLedger.SplitShape | assets/portfolio.py:89-95 | reducing lot k and appending the split part gives the split tail |
| PortfolioLedger.LiquidationAssembled | assets/portfolio.py:88-99 | the closed prefix plus the split tail is the liquidation |
| PortfolioLedger.WindowUnique | assets/portfolio.py:186-189 | the recorded-day window is unique |
| PortfolioLedger.RangeOfOneDay | assets/portfolio.py:180-190 | a range on a single recorded day has profitability zero |
| PortfolioLedger.RatioSign | assets/portfolio.py:178 | helper: a ratio minus one is positive exactly when the numerator is larger, zero exactly when equal |
| Calendar.DaysBeforeDecember | analyzer/finance_analyzer.py:132 | 334 days precede December, one more in a leap year |
| Calendar.DaysBeforeMonthPositive | analyzer/finance_analyzer.py:132 | every month before the given one has at least a day |
| Calendar.DaysBeforeYearPositive | analyzer/finance_analyzer.py:131 | every earlier year has at least 365 days |
| Calendar.OrdinalPositive | analyzer/finance_analyzer.py:131 | ordinals start at 1 on 1 January of year 1 |
| Calendar.PrevDayOrdinal | analyzer/finance_analyzer.py:132 | the previous day is a valid date one ordinal earlier |
| Calendar.PrevDayWeekday | analyzer/finance_analyzer.py:131-132 | the previous day's weekday is one earlier, modulo 7 |
| Calendar.OrdinalInjective | analyzer/finance_analyzer.py:131 | different dates have different ordinals |
| Calendar.PrevDayInjective | analyzer/finance_analyzer.py:132 | different dates have different previous days |
| Calendar.DaysBefore | analyzer/finance_analyzer.py:132 | going back n days is a valid date n ordinals earlier |
| Calendar.Rollback | analyzer/finance_analyzer.py:130-132 | the rolled-back date is valid |
| Calendar.RollbackIsWeekday | analyzer/finance_analyzer.py:130-132 | a Saturday goes back one day and a Sunday two; weekdays stay; the result is a weekday |
| Calendar.RollbackIsLatest | analyzer/finance_analyzer.py:130-132 | every day after the rolled-back date up to today is a weekend day |
| Calendar.RollbackIdempotent | analyzer/finance_analyzer.py:130-132 | rolling back twice is rolling back once |
| Calendar.PaddedDecimal | analyzer/finance_analyzer.py:20 | a zero-padded number has its width, only digits, and reads back as the number |
| Calendar.DecimalPadded | analyzer/finance_analyzer.py:20 | a digit string is the zero padding of its value |
| Calendar.FilenameShape | analyzer/finance_analyzer.py:19-20 | the file name is the prefix, the padded year, month and day joined by `_`, and the suffix |
| Calendar.ParseFilenameOfFilename | analyzer/finance_analyzer.py:19-20 | parsing the file name gives back the date |
| Calendar.FilenameOfParseFilename | analyzer/finance_analyzer.py:19-20 | a well-formed name is the file name of the date it parses to |
| Calendar.FilenameInjective | analyzer/finance_analyzer.py:19-20 | different dates have different ranking files |
| Ranking.StrLessIrreflexive | analyzer/finance_analyzer.py:80 | no ticker precedes itself |
| Ranking.StrLessTransitive | analyzer/finance_analyzer.py:80 | the ticker order is transitive |
| Ranking.StrLessTotal | analyzer/finance_analyzer.py:80 | distinct tickers are ordered one way or the other |
| Ranking.BeforeIrreflexive | analyzer/finance_analyzer.py:82 | no row precedes itself |
| Ranking.BeforeTransitive | analyzer/finance_analyzer.py:82 | the row order is transitive |
| Ranking.BeforeTotal | analyzer/finance_analyzer.py:82 | rows of distinct tickers are ordered |
| Ranking.InsertContents | analyzer/finance_analyzer.py:82 | insertion adds exactly the row |
| Ranking.SortContents | analyzer/finance_analyzer.py:82 | the sort is a permutation |
| Ranking.InsertSorted | analyzer/finance_analyzer.py:82 | insertion keeps the rows ordered |
| Ranking.SortSorted | analyzer/finance_analyzer.py:82 | the sort orders rows of distinct tickers |
| Ranking.SortedPairwise | analyzer/finance_analyzer.py:82 | in an ordered ranking every earlier row precedes every later one |
| Ranking.SortedNeighbours | analyzer/finance_analyzer.py:82 | in an ordered ranking each row precedes the next |
| Ranking.EligibleMembers | analyzer/finance_analyzer.py:79-81 | the kept tickers are those both whitelisted and fetched, each once |
| Ranking.RowsMembers | analyzer/finance_analyzer.py:75-77 | there is one joined row per kept ticker |
| Ranking.RowsDistinct | analyzer/finance_analyzer.py:80-81 | distinct tickers give rows of distinct tickers |
| Ranking.RankingRows | analyzer/finance_analyzer.py:59-82 | a row is in the ranking exactly when its ticker is whitelisted and fetched and the row is that ticker's joined row |
| Ranking.RankingSorted | analyzer/finance_analyzer.py:82 | the ranking is ordered by summary rank and has each ticker once |
| Ranking.RankingBySummary | analyzer/finance_analyzer.py:82 | summary ranks do not decrease down the ranking, and rows without one come last |
| Ranking.SummaryRank | analyzer/finance_analyzer.py:70-77 | the summary rank exists exactly when both ranks do and is their sum; the other cells are the fetched values |
| Ranking.TickersOfRows | analyzer/finance_analyzer.py:140 | the ranking's index lists each row's ticker in order |
| Candidates.FirstAnswerIsFirst | analyzer/finance_analyzer.py:116-123 | a ticker's estimate is missing exactly when all five attempts fail, and otherwise it is the first successful answer |
| Candidates.GetEstimation | analyzer/finance_analyzer.py:109-124 | the table has a row for each requested ticker, holding its first successful answer |
| Candidates.HeadIsPrefix | analyzer/finance_analyzer.py:140 | `head(n)` is a prefix of length n, the whole table or all but the last -n |
| Candidates.AttachRows | analyzer/finance_analyzer.py:144 | joining keeps every ranking row in order and attaches its ticker's estimate, or missing cells |
| Candidates.EstimateWindow | analyzer/finance_analyzer.py:138-144 | on a weekday, exactly the top 4k ranked rows carry fetched estimates and the others have missing cells |
| Candidates.UndervaluedsMembers | analyzer/finance_analyzer.py:154-155 | the filter keeps exactly the undervalued rows, in their order |
| Candidates.SubsequenceDrop | analyzer/finance_analyzer.py:154-156 | helper: a subsequence of the tail is a subsequence of the whole |
| Candidates.SubsequenceTail | analyzer/finance_analyzer.py:154-156 | helper: the tail of a subsequence is a subsequence |
| Candidates.SubsequencePrefix | analyzer/finance_analyzer.py:154-156 | helper: a prefix of a subsequence is a subsequence |
| Candidates.CandidatesProperties | analyzer/finance_analyzer.py:154-156 | the candidates are at most k undervalued rows, the first ones in ranking order |
| Candidates.CompletesMembers | analyzer/finance_analyzer.py:163 | `dropna` keeps only complete rows, drawn from the input |
| Candidates.InsertByRatingContents | analyzer/finance_analyzer.py:163 | insertion adds exactly the row |
| Candidates.InsertByRatingBound | analyzer/finance_analyzer.py:163 | insertion keeps a lower bound on ratings |
| Candidates.InsertByRatingSorted | analyzer/finance_analyzer.py:163 | insertion keeps the rows ordered by rating |
| Candidates.SortByRatingProperties | analyzer/finance_analyzer.py:163 | the sort by rating is ordered and a permutation |
| Candidates.InsertByRatingStable | analyzer/finance_analyzer.py:163 | insertion puts the new row in front of the rows with its rating |
| Candidates.SortByRatingStable | analyzer/finance_analyzer.py:163 | the rating sort keeps equally rated candidates in their order |
| Candidates.BestOfProperties | analyzer/finance_analyzer.py:158-163 | the best companies are at most n complete candidates, ordered by rating |
| Candidates.CompleteByContents | analyzer/finance_analyzer.py:163 | a sub-multiset of complete rows is complete |
| Candidates.PrefixParts | analyzer/finance_analyzer.py:163 | helper: a sequence's rows are those of its prefix and its suffix |
| Candidates.BestOfIsBest | analyzer/finance_analyzer.py:158-163 | no complete candidate left out is rated better than one that was chosen |
| Candidates.GetCandidates | analyzer/finance_analyzer.py:126-156 | on a weekday the day's table is built and stored under the rolled-back date's name; at a weekend it is read back, failing when missing; either way the result is its undervalued head |
| Candidates.GetBestCompanies | analyzer/finance_analyzer.py:158-163 | the best n are drawn from the candidates for 6n companies; on a weekday the table for 6n companies is stored under the rolled-back date's name, at a weekend the store is unchanged and a missing file fails |
| SqlKeys.PrependEmpty | bot/database_manager.py:17 | helper: prepending nothing changes nothing |
| SqlKeys.PrependStep | bot/database_manager.py:21 | helper: appending a key and prepending the rest are the same |
| SqlKeys.StartStep | bot/database_manager.py:12-15 | the first scan stops after a `(` line and otherwise moves on |
| SqlKeys.CollectStep | bot/database_manager.py:18-21 | the key scan stops at `)` and fails on a blank line |
| SqlKeys.CollectAdvance | bot/database_manager.py:18-21 | a line with a word adds that word as a key |
| SqlKeys.GetKeys | bot/database_manager.py:8-22 | the loops return the keys of the script, failing on a blank line inside the column list |
| SqlKeys.CollectFrom | bot/database_manager.py:17-22 | the second loop collects the keys from the given line |
| SqlKeys.StartIndexBound | bot/database_manager.py:11-15 | the first scan never passes the end |
| SqlKeys.StartAfterOpen | bot/database_manager.py:11-15 | the scan stops just after the first `(` line, or at the end when there is none |
| SqlKeys.NoOpenParen | bot/database_manager.py:11-22 | without a `(` line the keys are empty |
| SqlKeys.CollectedKeys | bot/database_manager.py:17-21 | each key is the first word of its line, and the scan stops at the end or at a `)` line |
| SqlKeys.CollectedWords | bot/database_manager.py:21 | each key is the first word of its line, which is not `)` |
| SqlKeys.CollectedStop | bot/database_manager.py:19-20 | the scan stops at the end or at a `)` line |
| SqlKeys.CollectFails | bot/database_manager.py:21 | the scan fails exactly when a blank line comes before any `)` line |
| SqlKeys.BlankLineOf | bot/database_manager.py:21 | a failed scan has a blank line before any `)` line |
| SqlKeys.BlankLineFails | bot/database_manager.py:21 | a blank line before any `)` line makes the scan fail |
| SqlKeys.StopsAtClose | bot/database_manager.py:19-20 | lines after the first `)` do not matter |
| SqlKeys.NoCloseParen | bot/database_manager.py:18-21 | without `)` every line gives its first word |
| SqlKeys.KeysBound | bot/database_manager.py:8-22 | there are no more keys than lines after the `(` |
| SqlKeys.TrimStartShape | bot/database_manager.py:14 | stripping the front removes exactly a run of whitespace |
| SqlKeys.WordShape | bot/database_manager.py:21 | the first word has no whitespace and is followed by whitespace or the end |
| SqlKeys.FirstTokenShape | bot/database_manager.py:21 | a line has a first word exactly when it is not all whitespace; that word is non-empty, with no whitespace, between leading whitespace and a whitespace-led rest |
| SqlKeys.ZipLookup | bot/database_manager.py:72 | a key is in the row dictionary exactly when it is among the zipped keys, and its value is the one zipped with its last occurrence |
| SqlKeys.ZipKeys | bot/database_manager.py:72 | the dictionary's keys are the keys within the shorter length |
| SqlKeys.ZipLast | bot/database_manager.py:72 | a key's value comes from its last zipped occurrence |
| SqlKeys.ZipDistinct | bot/database_manager.py:72 | with distinct keys the dictionary has one entry per zipped pair |
| SqlKeys.SubscribersRows | bot/database_manager.py:72 | each subscriber row becomes the dictionary of its zipped keys and values |
| Lots.OfTicker | assets/portfolio.py:66 | definition: the rows of one ticker, in table order; pinned down by Lots.OfTickerAppend, Lots.OfTickerSelects, Lots.TickersOfTicker |
| Lots.OtherTickers | assets/portfolio.py:101 | definition: the rows of every other ticker, in table order; pinned down by Lots.OtherTickersAppend, Lots.OtherTickersSelect, Fifo.SellKeepsOtherTickers |
| Lots.OpenLots | assets/portfolio.py:68 | definition: the open rows, in table order; pinned down by Lots.OpenLotsAppend, Lots.OpenLotsSelect |
| Lots.ClosedLots | assets/portfolio.py:67 | definition: the closed rows, in table order; pinned down by Lots.ClosedLotsAppend, Lots.ClosedLotsSelect |
| Lots.Shares | assets/portfolio.py:71 | definition: the sum of the `number` column; pinned down by Lots.SharesAppend, Lots.SharesPositive |
| Lots.OpenTotal | assets/portfolio.py:66-71 | definition: the open shares of one ticker; pinned down by Lots.OpenTotalPositive, Fifo.SellConservesShares |
| Fifo.Liquidate | assets/portfolio.py:77-99 | definition: closes the oldest lots whose running total stays within n and splits the next one; pinned down by Fifo.LiquidateByCumulativeSums, Fifo.LiquidateMoves, Fifo.LiquidateFifo, PortfolioLedger.LiquidateOpen |
| Fifo.SplitTail | assets/portfolio.py:88-95 | definition: the lots from index k on, lot k reduced by m and its m shares appended closed; pinned down by PortfolioLedger.SplitShape, Fifo.SplitTailShift |
| Fifo.SellLots | assets/portfolio.py:66-102 | definition: the new table, the ticker's closed rows, the other tickers' rows, then the liquidated open rows; pinned down by Fifo.SellIsFifo, Fifo.SellConservesShares, Fifo.SellKeepsOtherTickers |
| Valuation.Priced | assets/portfolio.py:162-168 | definition: every open row has a quote; pinned down by Valuation.PricedIndex, Valuation.ValueOpenLots |
| Valuation.Worth | assets/portfolio.py:166-168 | definition: a row's price times its size, zero when closed; pinned down by Valuation.ValueSnoc, Valuation.ScaleIsProduct |
| Valuation.Value | assets/portfolio.py:162-169 | definition: the sum of the rows' worth; pinned down by Valuation.ValueAppend, Valuation.ValuePartition, Valuation.SellValue, Valuation.BuyValue |
| Ranking.AddRanks | analyzer/finance_analyzer.py:77 | definition: the sum of two ranks, missing when either is; pinned down by Ranking.SummaryRank |
| Ranking.JoinKeys | analyzer/finance_analyzer.py:75-76 | definition: the tickers of the outer join of the four series; pinned down by Ranking.RankingRows |
| Ranking.Row | analyzer/finance_analyzer.py:70-77 | definition: a ticker's joined row; pinned down by Ranking.SummaryRank |
| Ranking.Eligible | analyzer/finance_analyzer.py:79-81 | definition: the whitelisted tickers that were fetched, each once; pinned down by Ranking.EligibleMembers |
| Ranking.Rows | analyzer/finance_analyzer.py:79-81 | definition: the joined rows of those tickers; pinned down by Ranking.RowsMembers, Ranking.RowsDistinct |
| Ranking.SortRows | analyzer/finance_analyzer.py:82 | definition: insertion sort by summary rank, missing last, ties by ticker; pinned down by Ranking.SortContents, Ranking.SortSorted |
| Ranking.NewRanking | analyzer/finance_analyzer.py:59-82 | definition: the sorted rows of the eligible tickers; pinned down by Ranking.RankingRows, Ranking.RankingSorted, Ranking.RankingBySummary |
| Calendar.Ordinal | analyzer/finance_analyzer.py:131 | definition: the proleptic Gregorian day number, 1 on 1 January of year 1; pinned down by Calendar.OrdinalPositive, Calendar.OrdinalInjective, Calendar.PrevDayOrdinal |
| Calendar.Weekday | analyzer/finance_analyzer.py:131 | definition: Monday 0 to Sunday 6 from the ordinal; pinned down by Calendar.PrevDayWeekday |
| Calendar.RollbackDays | analyzer/finance_analyzer.py:132 | definition: `(weekday > 4) + (weekday > 5)`; pinned down by Calendar.RollbackIsWeekday |
| Calendar.Filename | analyzer/finance_analyzer.py:19-20 | definition: `ordered_ranks_` then `%Y_%m_%d` then `.csv`; pinned down by Calendar.FilenameShape, Calendar.ParseFilenameOfFilename, Calendar.FilenameInjective |
| Candidates.FirstAnswer | analyzer/finance_analyzer.py:116-123 | definition: the first successful one of the five attempts; pinned down by Candidates.FirstAnswerIsFirst |
| Candidates.Estimates | analyzer/finance_analyzer.py:109-124 | definition: the estimate table of the requested tickers; pinned down by Candidates.GetEstimation |
| Candidates.Head | analyzer/finance_analyzer.py:140 | definition: pandas `head(n)`; pinned down by Candidates.HeadIsPrefix |
| Candidates.Attach | analyzer/finance_analyzer.py:144 | definition: the axis-1 join of the ranking with the estimate table; pinned down by Candidates.AttachRows |
| Candidates.WeekdayTable | analyzer/finance_analyzer.py:138-144 | definition: the ranking joined with estimates for its top 4k tickers; pinned down by Candidates.EstimateWindow |
| Candidates.Undervalued | analyzer/finance_analyzer.py:155 | definition: the current price is below the average target, false on missing cells; pinned down by Candidates.UndervaluedsMembers |
| Candidates.Undervalueds | analyzer/finance_analyzer.py:154-155 | definition: the undervalued rows in order; pinned down by Candidates.UndervaluedsMembers |
| Candidates.CandidatesOf | analyzer/finance_analyzer.py:154-156 | definition: the first k undervalued rows; pinned down by Candidates.CandidatesProperties |
| Candidates.Complete | analyzer/finance_analyzer.py:163 | definition: a row with no missing cell; pinned down by Candidates.CompletesMembers |
| Candidates.Completes | analyzer/finance_analyzer.py:163 | definition: `dropna`, the complete rows in order; pinned down by Candidates.CompletesMembers |
| Candidates.SortByRating | analyzer/finance_analyzer.py:163 | definition: stable insertion sort by rating, ascending; pinned down by Candidates.SortByRatingProperties, Candidates.SortByRatingStable |
| Candidates.BestOf | analyzer/finance_analyzer.py:163 | definition: the first n complete candidates by rating; pinned down by Candidates.BestOfProperties, Candidates.BestOfIsBest |
| SqlKeys.IsSpace | bot/database_manager.py:14 | definition: the whitespace characters `strip` and `split` remove; pinned down by SqlKeys.TrimStartShape, SqlKeys.WordShape |
| SqlKeys.Strip | bot/database_manager.py:14 | definition: `str.strip()`; pinned down by SqlKeys.TrimStartShape |
| SqlKeys.FirstToken | bot/database_manager.py:21 | definition: `line.split(maxsplit=1)[0]`, missing on an all-whitespace line; pinned down by SqlKeys.FirstTokenShape |
| SqlKeys.StartIndex | bot/database_manager.py:11-15 | definition: the index after the first `(` line, or the length; pinned down by SqlKeys.StartAfterOpen, SqlKeys.StartIndexBound |
| SqlKeys.CollectKeys | bot/database_manager.py:17-21 | definition: the first words up to the first `)` line, failing on a blank one; pinned down by SqlKeys.CollectedKeys, SqlKeys.CollectFails, SqlKeys.StopsAtClose |
| SqlKeys.KeysOf | bot/database_manager.py:8-22 | definition: the keys of the whole script; pinned down by SqlKeys.GetKeys, SqlKeys.KeysBound, SqlKeys.NoOpenParen |
| SqlKeys.Zip | bot/database_manager.py:72 | definition: `dict(zip(keys, values))`; pinned down by SqlKeys.ZipLookup, SqlKeys.ZipDistinct |
| SqlKeys.Subscribers | bot/database_manager.py:72 | definition: one dictionary per fetched row; pinned down by SqlKeys.SubscribersRows |

## Left out

- Persistence is not modelled. This covers `save`, `load`, `_save_table`, `_load_table`, the cloud upload and download, and the removal of local files. The ranking file store is a map from file name to table, and storing and reloading a table is taken to be exact (the CSV round trip).
- The price lookup in the database when `buy` or `sell` gets no price is not modelled. The price is always passed in.
- In `get_all_funds`, the price comes from a map of market prices. A missing quote gives `None` where the source fails.
- The screener and quote web requests (`_get_ranks_dict`, `_get_quote_estimation`) are not modelled. The fetched series are a `Metrics` value, and the quote service is the attempt function `fetch`.
- The E/P series is taken as fetched. The source computes it as 100 over P/E in floating point.
- IEEE floating-point behaviour is not modelled. Money is exact `real`, and NaN cells are `None`.
- Reading the whitelist spreadsheet and the SQL script file is not modelled. Both are taken as given: the whitelist as a sequence of tickers, the script as its lines.
- The clock is a parameter: today's date for the analyzer, the day number for the ledger. The source reads `datetime.today()` twice in `_get_candidates`, and the model takes both reads to give the same day. The default arguments `date.today()` are evaluated once when the function is defined; the model has explicit dates instead.
- The pandas sorts (`sort_values` on the opening date, the summary rank and the rating) use `quicksort`, which is not stable, so their tie order is unspecified. The model fixes it: the ledger sort keeps lots opened on the same day in table order (Lots.SortByOpenDateStable), the rating sort keeps equally rated candidates in candidate order (Candidates.SortByRatingStable), and the ranking breaks ties in summary rank by ticker, which is the order ticker de-duplication leaves.
- `%Y` is taken as zero-padded to four digits. Years below 1000 depend on the platform's `strftime`.
- `buy` and `sell` write the columns `closed_price` and `closed_date`, while the table's own columns are `close_price` and `close_date`, so pandas adds columns. The model has one close price and one close date per lot.
- PortfolioLedger.Portfolio.Buy: requires `number > 0`. A buy of zero or fewer shares would put a lot that is not well formed into the table. The source has no such guard.
- PortfolioLedger.Portfolio.RangeProfitability: requires a recorded day at or after `first` and one at or before `last`. Without them the source steps day by day to the calendar's limit and raises `OverflowError`; the model excludes that error path. A first entry of zero gives `None` where the source raises a division error.
- Valuation.SaleAtMarketKeepsWorth: the sale proceeds are stated as `Scale(price, n)`. Valuation.ScaleIsProduct proves that this repeated sum equals `price * n`, which is what `sell` adds. The same holds for Valuation.BuyAtMarketKeepsWorth and the cost of a buy.
- Concurrency and the bot front end are outside this model.
