/**
 * The portfolio ledger of assets/portfolio.py: a share table, a history of
 * net worth per day, and the free and initial funds; with buying, FIFO
 * selling, valuation under a price lookup, and profitability.
 *
 * Money and prices are `real`, dates are day numbers, and the market price
 * lookup is a map from ticker to price (a ticker missing from it is a lookup
 * that fails).
 */
module PortfolioLedger {
  import opened Wrappers
  import opened Lots
  import opened Fifo
  import opened Valuation

  /** The funds a new portfolio starts with. */
  const StartingFunds: real := 100000.0

  class Portfolio {
    var lots: seq<Lot>
    var history: map<int, real>
    var initialFunds: real
    var freeFunds: real

    ghost predicate Valid()
      reads this
    {
      initialFunds > 0.0 && AllWellFormed(lots)
    }

    /** Net worth: the free funds plus the market value of the open lots. */
    ghost function NetWorth(prices: map<string, real>): real
      reads this
      requires Priced(lots, prices)
    {
      freeFunds + Value(lots, prices)
    }

    constructor ()
      ensures Valid()
      ensures lots == [] && history == map[]
      ensures initialFunds == StartingFunds && freeFunds == StartingFunds
    {
      lots := [];
      history := map[];
      initialFunds := StartingFunds;
      freeFunds := StartingFunds;
    }

    /**
     * Buys `number` shares of `ticker` at `price` on `date` when the free
     * funds cover the cost: appends an open lot and pays for it. Refuses,
     * changing nothing, otherwise.
     */
    method Buy(ticker: string, number: int, price: real, date: int) returns (ok: bool)
      requires Valid() && number > 0
      modifies this
      ensures Valid()
      ensures ok <==> number as real * price <= old(freeFunds)
      ensures ok ==> lots == old(lots) + [OpenLot(ticker, number, price, date)]
      ensures ok ==> freeFunds == old(freeFunds) - number as real * price
      ensures !ok ==> lots == old(lots) && freeFunds == old(freeFunds)
      ensures history == old(history) && initialFunds == old(initialFunds)
    {
      var cost := number as real * price;
      if cost > freeFunds {
        return false;
      }
      var row := OpenLot(ticker, number, price, date);
      assert AllWellFormed(lots + [row]) by {
        forall i | 0 <= i < |lots + [row]| ensures WellFormed((lots + [row])[i]) {
          if i < |lots| { assert (lots + [row])[i] == lots[i]; }
        }
      }
      lots := lots + [row];
      freeFunds := freeFunds - cost;
      ok := true;
    }

    /**
     * Sells `number` shares of `ticker` at `price` on `date` when that many
     * are open: the open lots are sorted by opening date, the leading lots
     * whose running total stays within the order are closed, the first lot
     * past it is split, and the table is reassembled as closed lots of the
     * ticker, the other tickers' rows, then the sold lots. Refuses, changing
     * nothing, when fewer shares are open.
     */
    method Sell(ticker: string, number: int, price: real, date: int) returns (ok: bool)
      requires Valid()
      modifies this
      ensures Valid()
      ensures ok <==> number <= OpenTotal(old(lots), ticker)
      ensures ok ==> lots == SellLots(old(lots), ticker, number, price, date)
      ensures ok ==> freeFunds == old(freeFunds) + number as real * price
      ensures !ok ==> lots == old(lots) && freeFunds == old(freeFunds)
      ensures history == old(history) && initialFunds == old(initialFunds)
    {
      var shares := OfTicker(lots, ticker);
      var closedBefore := ClosedLots(shares);
      var open := OpenLots(shares);
      if Shares(open) < number {
        return false;
      }
      SellParts(lots, ticker, number, price, date);
      SellWellFormed(lots, ticker, number, price, date);
      open := SortByOpenDate(open);
      var sold := LiquidateOpen(open, number, price, date);
      lots := closedBefore + OtherTickers(lots, ticker) + sold;
      freeFunds := freeFunds + number as real * price;
      ok := true;
    }

    /**
     * Net worth under the market prices `prices`: the free funds plus price
     * times number over the open lots, in table order. None when an open
     * lot's ticker has no price.
     */
    method GetAllFunds(prices: map<string, real>) returns (r: Option<real>)
      requires Valid()
      ensures r.Some? <==> Priced(lots, prices)
      ensures r.Some? ==> r.value == NetWorth(prices)
    {
      var open := OpenLots(lots);
      assert AllOpen(open) by { SelectionsSelect(lots, ""); }
      assert (Priced(lots, prices) <==> Priced(open, prices))
        && (Priced(lots, prices) ==> Value(open, prices) == Value(lots, prices)) by {
        ValueOpenLots(lots, prices);
      }
      var allFunds := freeFunds;
      var i := 0;
      assert open[..0] == [];
      while i < |open|
        invariant i <= |open|
        invariant Priced(open[..i], prices)
        invariant allFunds == freeFunds + Value(open[..i], prices)
      {
        var share := open[i];
        if share.ticker !in prices {
          assert !Priced(open, prices) by { PricedIndex(open, prices); }
          return None;
        }
        assert Priced(open[..i + 1], prices)
          && Value(open[..i + 1], prices) == Value(open[..i], prices) + prices[share.ticker] * share.number as real by {
          ValueSnoc(open[..i], share, prices);
          assert open[..i + 1] == open[..i] + [share];
        }
        allFunds := allFunds + prices[share.ticker] * share.number as real;
        i := i + 1;
      }
      assert open[..i] == open;
      r := Some(allFunds);
    }

    /**
     * Profitability since the start: net worth over the initial funds, minus
     * one. Positive exactly when the portfolio is worth more than it started
     * with, zero exactly when it is worth the same.
     */
    method TotalProfitability(prices: map<string, real>) returns (r: Option<real>)
      requires Valid()
      ensures r.Some? <==> Priced(lots, prices)
      ensures r.Some? ==> r.value == NetWorth(prices) / initialFunds - 1.0
      ensures r.Some? ==> (r.value > 0.0 <==> NetWorth(prices) > initialFunds)
      ensures r.Some? ==> (r.value == 0.0 <==> NetWorth(prices) == initialFunds)
    {
      var allFunds := GetAllFunds(prices);
      if allFunds == None {
        return None;
      }
      RatioSign(allFunds.value, initialFunds);
      r := Some(allFunds.value / initialFunds - 1.0);
    }

    /** Records today's net worth in the history, replacing an earlier record of the day. */
    method UpdateHistory(today: int, prices: map<string, real>) returns (ok: bool)
      requires Valid()
      modifies this`history
      ensures ok <==> Priced(lots, prices)
      ensures ok ==> history == old(history)[today := NetWorth(prices)]
      ensures !ok ==> history == old(history)
    {
      var allFunds := GetAllFunds(prices);
      if allFunds == None {
        return false;
      }
      history := history[today := allFunds.value];
      ok := true;
    }

    /**
     * Profitability over the days from `first` to `last`, bounds included:
     * `first` moves forward and `last` backward to the nearest recorded day,
     * and the result is the ratio of the two records minus one. None when the
     * earlier record is zero (a division by zero).
     */
    method RangeProfitability(first: int, last: int) returns (r: Option<real>)
      requires exists d :: d in history && first <= d
      requires exists d :: d in history && d <= last
      ensures exists f, l :: Window(history, first, last, f, l) && r == Ratio(history, f, l)
    {
      ghost var hi :| hi in history && first <= hi;
      var f := first;
      while f !in history
        invariant first <= f <= hi
        invariant forall d :: first <= d < f ==> d !in history
        decreases hi - f
      {
        f := f + 1;
      }
      ghost var lo :| lo in history && lo <= last;
      var l := last;
      while l !in history
        invariant lo <= l <= last
        invariant forall d :: l < d <= last ==> d !in history
        decreases l - lo
      {
        l := l - 1;
      }
      r := if history[f] == 0.0 then None else Some(history[l] / history[f] - 1.0);
      assert Window(history, first, last, f, l);
    }
  }

  /**
   * Buying shares and then selling as many of the same ticker at the same
   * price: the sale goes through whenever the purchase did, the free funds
   * end where they started, and every position is as before.
   */
  method BuyThenSell(p: Portfolio, ticker: string, number: int, price: real, buyDate: int, sellDate: int)
    returns (bought: bool, sold: bool)
    requires p.Valid() && number > 0
    modifies p
    ensures p.Valid()
    ensures bought ==> sold
    ensures p.freeFunds == old(p.freeFunds)
    ensures Positions(p.lots) == Positions(old(p.lots))
    ensures !bought ==> p.lots == old(p.lots)
  {
    bought := p.Buy(ticker, number, price, buyDate);
    sold := false;
    if bought {
      BuyThenSellPositions(old(p.lots), ticker, number, price, buyDate, price, sellDate);
      sold := p.Sell(ticker, number, price, sellDate);
    }
  }

  /**
   * The running totals of the lot sizes against the order: the number of
   * leading lots whose cumulative size stays within `number`, and that size.
   */
  method SoldPrefix(open: seq<Lot>, number: int) returns (soldLen: nat, lowerBound: int)
    ensures soldLen <= |open| && lowerBound == Shares(open[..soldLen])
    ensures soldLen > 0 ==> lowerBound <= number
    ensures soldLen < |open| ==> Shares(open[..soldLen + 1]) > number
  {
    soldLen, lowerBound := 0, 0;
    while soldLen < |open| && lowerBound + open[soldLen].number <= number
      invariant soldLen <= |open|
      invariant lowerBound == Shares(open[..soldLen])
      invariant soldLen > 0 ==> lowerBound <= number
    {
      SharesStep(open, soldLen);
      lowerBound := lowerBound + open[soldLen].number;
      soldLen := soldLen + 1;
    }
    if soldLen < |open| {
      SharesStep(open, soldLen);
    }
  }

  lemma SharesStep(s: seq<Lot>, k: nat)
    requires k < |s|
    ensures Shares(s[..k + 1]) == Shares(s[..k]) + s[k].number
  {
    assert s[..k + 1] == s[..k] + [s[k]];
    SharesAppend(s[..k], [s[k]]);
  }

  /**
   * Sells `number` shares out of the open lots `open`, sorted oldest first:
   * the lots within the running total are closed whole, and the lot the
   * running total passes keeps its remainder open and has the sold part
   * appended as a closed lot.
   */
  method LiquidateOpen(open: seq<Lot>, number: int, price: real, date: int) returns (sold: seq<Lot>)
    requires AllWellFormed(open) && number <= Shares(open)
    ensures sold == Liquidate(open, number, price, date)
  {
    var soldLen, lowerBound := SoldPrefix(open, number);
    assert open[..|open|] == open;
    ghost var tail := SplitTail(open, soldLen, number - lowerBound, price, date);

    // split the lot the running total passes
    sold := open;
    if lowerBound < number {
      var part := number - lowerBound;
      sold := open[soldLen := open[soldLen].(number := open[soldLen].number - part)]
        + [Close(open[soldLen].(number := part), price, date)];
      SplitShape(open, soldLen, part, price, date);
    }

    // close the lots sold whole
    var i := 0;
    while i < soldLen
      invariant i <= soldLen
      invariant |sold| == soldLen + |tail|
      invariant forall j :: soldLen <= j < |sold| ==> sold[j] == tail[j - soldLen]
      invariant forall j :: 0 <= j < i ==> sold[j] == Close(open[j], price, date)
      invariant forall j :: i <= j < soldLen ==> sold[j] == open[j]
    {
      sold := sold[i := Close(sold[i], price, date)];
      i := i + 1;
    }
    assert sold[soldLen..] == tail;
    CloseAllIndex(sold[..soldLen], open[..soldLen], price, date);
    LiquidationAssembled(open, number, price, date, soldLen, sold);
  }

  /** The split table: the lots before `k` as they were, then the rows SplitTail describes. */
  lemma SplitShape(open: seq<Lot>, k: nat, m: int, price: real, date: int)
    requires k < |open| && m > 0
    ensures var s := open[k := open[k].(number := open[k].number - m)] + [Close(open[k].(number := m), price, date)];
      |s| == k + |SplitTail(open, k, m, price, date)|
      && (forall j :: 0 <= j < k ==> s[j] == open[j])
      && (forall j :: k <= j < |s| ==> s[j] == SplitTail(open, k, m, price, date)[j - k])
  {
  }

  /** A table split at the running total into closed lots and a tail is the liquidation. */
  lemma LiquidationAssembled(open: seq<Lot>, number: int, price: real, date: int, soldLen: nat, sold: seq<Lot>)
    requires AllWellFormed(open) && number <= Shares(open)
    requires soldLen <= |open| && soldLen <= |sold|
    requires soldLen > 0 ==> Shares(open[..soldLen]) <= number
    requires soldLen < |open| ==> Shares(open[..soldLen + 1]) > number
    requires number - Shares(open[..soldLen]) > 0 ==> soldLen < |open|
    requires sold[..soldLen] == CloseAll(open[..soldLen], price, date)
    requires sold[soldLen..] == SplitTail(open, soldLen, number - Shares(open[..soldLen]), price, date)
    ensures sold == Liquidate(open, number, price, date)
  {
    assert sold == sold[..soldLen] + sold[soldLen..];
    if number <= 0 {
      assert soldLen == 0 by {
        if soldLen > 0 {
          assert AllWellFormed(open[..soldLen]);
          SharesPositive(open[..soldLen]);
        }
      }
      LiquidateNothing(open, number, price, date);
    } else {
      assert open[..0] == [];
      LiquidateByCumulativeSums(open, number, price, date, soldLen);
    }
  }

  /**
   * `f` is the first recorded day from `first` on, and `l` the last recorded
   * day up to `last`.
   */
  predicate Window(history: map<int, real>, first: int, last: int, f: int, l: int)
  {
    && f in history && first <= f && (forall d :: first <= d < f ==> d !in history)
    && l in history && l <= last && (forall d :: l < d <= last ==> d !in history)
  }

  /** The profitability between the records of days `f` and `l`. */
  function Ratio(history: map<int, real>, f: int, l: int): Option<real>
    requires f in history && l in history
  {
    if history[f] == 0.0 then None else Some(history[l] / history[f] - 1.0)
  }

  /** The recorded days a range resolves to are determined by the range. */
  lemma WindowUnique(history: map<int, real>, first: int, last: int, f: int, l: int, f': int, l': int)
    requires Window(history, first, last, f, l) && Window(history, first, last, f', l')
    ensures f == f' && l == l'
  {
  }

  /** A range of one recorded day with a nonzero record has zero profitability. */
  lemma RangeOfOneDay(history: map<int, real>, d: int)
    requires d in history && history[d] != 0.0
    ensures Window(history, d, d, d, d) && Ratio(history, d, d) == Some(0.0)
  {
    var x := history[d];
    assert x / x == 1.0;
  }

  lemma RatioSign(x: real, c: real)
    requires c > 0.0
    ensures x / c - 1.0 > 0.0 <==> x > c
    ensures x / c - 1.0 == 0.0 <==> x == c
  {
    var q := x / c;
    assert x == q * c;
    assert x - c == (q - 1.0) * c;
    if q > 1.0 {
      Positive(q - 1.0, c);
    } else if q < 1.0 {
      Positive(1.0 - q, c);
    }
  }

  lemma Positive(a: real, b: real)
    requires a > 0.0 && b > 0.0
    ensures a * b > 0.0
  {
  }
}
