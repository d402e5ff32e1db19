/**
 * First-in-first-out liquidation of open lots (the `sell` step of
 * assets/portfolio.py), stated as functions on the share table, with the
 * properties a sale promises: shares are conserved, exactly the ordered number
 * of shares changes from open to closed, the oldest lots go first, at most one
 * lot is split, and the rows of other tickers and earlier sales are kept.
 */
module Fifo {
  import opened Wrappers
  import opened Lots

  /**
   * Sells `n` shares out of the open lots `s`, taken oldest first: every lot
   * that fits in what is left of the order is closed whole; the first lot that
   * does not fit, if any of the order is left, keeps its remainder open in
   * place, and the part sold from it is appended at the end as a closed lot.
   */
  function Liquidate(s: seq<Lot>, n: int, price: real, date: int): seq<Lot>
  {
    if s == [] then []
    else if s[0].number <= n then [Close(s[0], price, date)] + Liquidate(s[1..], n - s[0].number, price, date)
    else if 0 < n then [s[0].(number := s[0].number - n)] + s[1..] + [Close(s[0].(number := n), price, date)]
    else s
  }

  /** The rows the lot sold from last keeps and gains when `m` of its shares remain to be sold. */
  function SplitTail(s: seq<Lot>, k: nat, m: int, price: real, date: int): seq<Lot>
    requires k <= |s|
    requires m > 0 ==> k < |s|
  {
    if m > 0 then [s[k].(number := s[k].number - m)] + s[k + 1..] + [Close(s[k].(number := m), price, date)]
    else s[k..]
  }

  /**
   * The table after selling `n` shares of `t` at `price` on `date`: the
   * ticker's earlier closed lots, then every other ticker's rows, then the
   * ticker's open lots sorted by opening date and liquidated.
   */
  function SellLots(lots: seq<Lot>, t: string, n: int, price: real, date: int): seq<Lot>
  {
    ClosedLots(OfTicker(lots, t)) + OtherTickers(lots, t)
      + Liquidate(SortByOpenDate(OpenOf(lots, t)), n, price, date)
  }

  // ---------------------------------------------------------------------------
  // Liquidation

  /** Liquidation neither creates nor destroys shares. */
  lemma {:induction false} LiquidateShares(s: seq<Lot>, n: int, price: real, date: int)
    ensures Shares(Liquidate(s, n, price, date)) == Shares(s)
  {
    if s != [] {
      if s[0].number <= n {
        LiquidateShares(s[1..], n - s[0].number, price, date);
      } else if 0 < n {
        var a := s[0].(number := s[0].number - n);
        var c := Close(s[0].(number := n), price, date);
        SharesAppend([a] + s[1..], [c]);
        SharesAppend([a], s[1..]);
      }
    }
  }

  /** Exactly `n` shares change from open to closed. */
  lemma {:induction false} LiquidateMoves(s: seq<Lot>, n: int, price: real, date: int)
    requires AllOpen(s) && AllWellFormed(s)
    requires 0 <= n <= Shares(s)
    ensures Shares(ClosedLots(Liquidate(s, n, price, date))) == n
    ensures Shares(OpenLots(Liquidate(s, n, price, date))) == Shares(s) - n
    decreases |s|, 1
  {
    if s != [] {
      if s[0].number <= n {
        LiquidateMovesClose(s, n, price, date);
      } else if 0 < n {
        LiquidateMovesSplit(s, n, price, date);
      } else {
        ClosedLotsAllOpen(s);
        OpenLotsAllOpen(s);
      }
    }
  }

  lemma {:induction false} LiquidateMovesClose(s: seq<Lot>, n: int, price: real, date: int)
    requires AllOpen(s) && AllWellFormed(s)
    requires s != [] && s[0].number <= n <= Shares(s)
    ensures Shares(ClosedLots(Liquidate(s, n, price, date))) == n
    ensures Shares(OpenLots(Liquidate(s, n, price, date))) == Shares(s) - n
    decreases |s|, 0
  {
    var c0 := Close(s[0], price, date);
    var rest := Liquidate(s[1..], n - s[0].number, price, date);
    assert Liquidate(s, n, price, date) == [c0] + rest;
    LiquidateMoves(s[1..], n - s[0].number, price, date);
    ClosedLotsAppend([c0], rest);
    OpenLotsAppend([c0], rest);
    assert ClosedLots([c0]) == [c0] && OpenLots([c0]) == [];
    SharesAppend([c0], ClosedLots(rest));
    assert Shares([c0]) == s[0].number;
    assert OpenLots([c0] + rest) == OpenLots(rest);
    assert Shares(s) == s[0].number + Shares(s[1..]);
  }

  lemma LiquidateMovesSplit(s: seq<Lot>, n: int, price: real, date: int)
    requires AllOpen(s) && AllWellFormed(s)
    requires s != [] && 0 < n < s[0].number
    ensures Shares(ClosedLots(Liquidate(s, n, price, date))) == n
    ensures Shares(OpenLots(Liquidate(s, n, price, date))) == Shares(s) - n
  {
    var a := s[0].(number := s[0].number - n);
    var c := Close(s[0].(number := n), price, date);
    assert Liquidate(s, n, price, date) == [a] + s[1..] + [c];
    ClosedLotsAppend([a] + s[1..], [c]);
    ClosedLotsAppend([a], s[1..]);
    OpenLotsAppend([a] + s[1..], [c]);
    OpenLotsAppend([a], s[1..]);
    ClosedLotsAllOpen(s[1..]);
    OpenLotsAllOpen(s[1..]);
    SharesAppend([a], s[1..]);
    assert ClosedLots([a]) == [] && OpenLots([a]) == [a];
    assert ClosedLots([c]) == [c] && OpenLots([c]) == [];
    assert Shares([c]) == n;
    assert Shares([a]) == s[0].number - n;
    assert ClosedLots([a] + s[1..]) == [];
    assert ClosedLots(Liquidate(s, n, price, date)) == [c];
    assert OpenLots(Liquidate(s, n, price, date)) == [a] + s[1..];
  }

  /** Every closed lot of `s` was closed at `price` on `date`. */
  predicate ClosedAt(s: seq<Lot>, price: real, date: int)
  {
    forall i :: 0 <= i < |s| && s[i].isClosed ==> s[i].closePrice == Some(price) && s[i].closeDate == Some(date)
  }

  /**
   * Liquidating well-formed open lots of one ticker yields well-formed lots of
   * that ticker, and every closed one is closed at the sale's price and date.
   */
  lemma {:induction false} LiquidateKeeps(s: seq<Lot>, n: int, price: real, date: int, t: string)
    requires AllOpen(s) && AllWellFormed(s) && AllOf(s, t)
    ensures var r := Liquidate(s, n, price, date);
      AllWellFormed(r) && AllOf(r, t) && ClosedAt(r, price, date)
  {
    if s != [] {
      assert WellFormed(s[0]) && !s[0].isClosed;
      if s[0].number <= n {
        LiquidateKeeps(s[1..], n - s[0].number, price, date, t);
      }
    }
  }

  /** No lot of `s` was opened before `lb`. */
  predicate OpenedFrom(s: seq<Lot>, lb: int)
  {
    forall i :: 0 <= i < |s| ==> lb <= s[i].openDate
  }

  /** Liquidation keeps every opening date at or after a bound that the input respects. */
  lemma {:induction false} LiquidateDatesFrom(s: seq<Lot>, n: int, price: real, date: int, lb: int)
    requires OpenedFrom(s, lb)
    ensures OpenedFrom(Liquidate(s, n, price, date), lb)
  {
    if s != [] && s[0].number <= n {
      LiquidateDatesFrom(s[1..], n - s[0].number, price, date, lb);
    }
  }

  /** No closed lot of `r` was opened after an open lot of `r`. */
  predicate ClosedFirst(r: seq<Lot>)
  {
    forall i, j :: 0 <= i < |r| && 0 <= j < |r| && r[i].isClosed && !r[j].isClosed ==> r[i].openDate <= r[j].openDate
  }

  /** FIFO: no lot closed by the sale was opened after a lot that stays open. */
  lemma {:induction false} LiquidateFifo(s: seq<Lot>, n: int, price: real, date: int)
    requires SortedByDate(s) && AllOpen(s)
    ensures ClosedFirst(Liquidate(s, n, price, date))
  {
    if s != [] {
      assert OpenedFrom(s[1..], s[0].openDate);
      if s[0].number <= n {
        var c0 := Close(s[0], price, date);
        var rest := Liquidate(s[1..], n - s[0].number, price, date);
        LiquidateFifo(s[1..], n - s[0].number, price, date);
        LiquidateDatesFrom(s[1..], n - s[0].number, price, date, s[0].openDate);
        assert Liquidate(s, n, price, date) == [c0] + rest;
      } else if 0 < n {
        var a := s[0].(number := s[0].number - n);
        var c := Close(s[0].(number := n), price, date);
        var r := [a] + s[1..] + [c];
        assert Liquidate(s, n, price, date) == r;
        assert forall i :: 0 <= i < |r| && r[i].isClosed ==> i == |r| - 1;
      }
    }
  }

  /** An order for no shares (or fewer) leaves well-formed lots as they are. */
  lemma LiquidateNothing(s: seq<Lot>, n: int, price: real, date: int)
    requires AllWellFormed(s) && n <= 0
    ensures Liquidate(s, n, price, date) == s
  {
    if s != [] {
      assert WellFormed(s[0]);
    }
  }

  /** A sale never splits more than one lot. */
  lemma {:induction false} LiquidateLength(s: seq<Lot>, n: int, price: real, date: int)
    ensures |Liquidate(s, n, price, date)| <= |s| + 1
  {
    if s != [] && s[0].number <= n {
      LiquidateLength(s[1..], n - s[0].number, price, date);
    }
  }

  /**
   * Liquidation as the share table computes it: with `k` the number of leading
   * lots whose cumulative size stays within the order, those lots are closed
   * and only the remainder of the order, if any, splits lot `k`.
   */
  lemma {:induction false} LiquidateByCumulativeSums(s: seq<Lot>, n: int, price: real, date: int, k: nat)
    requires AllWellFormed(s)
    requires n <= Shares(s)
    requires k <= |s| && Shares(s[..k]) <= n
    requires k < |s| ==> Shares(s[..k + 1]) > n
    ensures n - Shares(s[..k]) > 0 ==> k < |s|
    ensures Liquidate(s, n, price, date)
         == CloseAll(s[..k], price, date) + SplitTail(s, k, n - Shares(s[..k]), price, date)
  {
    if k == 0 {
      assert s[..0] == [];
      assert s[0..] == s;
    } else {
      CumulativeStep(s, n, k);
      var m := n - Shares(s[..k]);
      LiquidateByCumulativeSums(s[1..], n - s[0].number, price, date, k - 1);
      SplitTailShift(s, k, m, price, date);
      CumulativeClose(s, n, price, date, k);
    }
  }

  /** Closing the first lot whole, given the characterisation for the rest of the lots. */
  lemma CumulativeClose(s: seq<Lot>, n: int, price: real, date: int, k: nat)
    requires 0 < k <= |s| && s[0].number <= n
    requires n - Shares(s[..k]) > 0 ==> k < |s|
    requires Liquidate(s[1..], n - s[0].number, price, date)
          == CloseAll(s[1..][..k - 1], price, date) + SplitTail(s, k, n - Shares(s[..k]), price, date)
    ensures Liquidate(s, n, price, date)
         == CloseAll(s[..k], price, date) + SplitTail(s, k, n - Shares(s[..k]), price, date)
  {
    LiquidateWhole(s, n, price, date);
    CloseAllPrefix(s, k, price, date);
    ConsAssoc(Close(s[0], price, date), CloseAll(s[1..][..k - 1], price, date),
              SplitTail(s, k, n - Shares(s[..k]), price, date));
  }

  lemma LiquidateWhole(s: seq<Lot>, n: int, price: real, date: int)
    requires s != [] && s[0].number <= n
    ensures Liquidate(s, n, price, date) == [Close(s[0], price, date)] + Liquidate(s[1..], n - s[0].number, price, date)
  {
  }

  lemma CloseAllPrefix(s: seq<Lot>, k: nat, price: real, date: int)
    requires 0 < k <= |s|
    ensures CloseAll(s[..k], price, date) == [Close(s[0], price, date)] + CloseAll(s[1..][..k - 1], price, date)
  {
    assert s[..k][0] == s[0] && s[..k][1..] == s[1..][..k - 1];
  }

  lemma ConsAssoc<T>(c: T, a: seq<T>, b: seq<T>)
    ensures [c] + (a + b) == [c] + a + b
  {
  }

  lemma SplitTailShift(s: seq<Lot>, k: nat, m: int, price: real, date: int)
    requires 0 < k <= |s|
    requires m > 0 ==> k < |s|
    ensures SplitTail(s[1..], k - 1, m, price, date) == SplitTail(s, k, m, price, date)
  {
    assert s[1..][k - 1..] == s[k..];
    if k < |s| {
      assert s[1..][k..] == s[k + 1..];
    }
  }

  /** The step of the cumulative-sum characterisation from `s` to `s[1..]`. */
  lemma CumulativeStep(s: seq<Lot>, n: int, k: nat)
    requires AllWellFormed(s)
    requires n <= Shares(s)
    requires 0 < k <= |s| && Shares(s[..k]) <= n
    requires k < |s| ==> Shares(s[..k + 1]) > n
    ensures s[0].number <= n
    ensures AllWellFormed(s[1..])
    ensures n - s[0].number <= Shares(s[1..])
    ensures Shares(s[1..][..k - 1]) == Shares(s[..k]) - s[0].number
    ensures k - 1 < |s[1..]| ==> Shares(s[1..][..k]) == Shares(s[..k + 1]) - s[0].number
  {
    assert s[..k] == [s[0]] + s[1..][..k - 1];
    if k < |s| {
      assert s[..k + 1] == [s[0]] + s[1..][..k];
    }
    SharesPositive(s[1..][..k - 1]);
  }

  // ---------------------------------------------------------------------------
  // A whole sale

  /** The pieces a sale is built from, and the table's rows of the sold ticker afterwards. */
  lemma SellParts(lots: seq<Lot>, t: string, n: int, price: real, date: int)
    requires AllWellFormed(lots)
    ensures var sorted := SortByOpenDate(OpenOf(lots, t));
      SortedByDate(sorted) && AllOpen(sorted) && AllWellFormed(sorted) && AllOf(sorted, t)
      && Shares(sorted) == OpenTotal(lots, t)
    ensures var liq := Liquidate(SortByOpenDate(OpenOf(lots, t)), n, price, date);
      AllWellFormed(liq) && AllOf(liq, t) && ClosedAt(liq, price, date)
    ensures var closed := ClosedLots(OfTicker(lots, t));
      AllWellFormed(closed) && AllOf(closed, t) && AllClosed(closed)
    ensures var others := OtherTickers(lots, t);
      AllWellFormed(others) && NoneOf(others, t)
  {
    var open := OpenOf(lots, t);
    var sorted := SortByOpenDate(open);
    SelectionsWellFormed(lots, t);
    SelectionsWellFormed(OfTicker(lots, t), t);
    SelectionsSelect(lots, t);
    SelectionsSelect(OfTicker(lots, t), t);
    OpenLotsOfTicker(lots, t);
    SelectionsSelect(OpenLots(lots), t);
    assert AllOf(open, t);
    ClosedSelectionOf(OfTicker(lots, t), t);
    SameRows(open, sorted, t);
    SortShares(open);
    LiquidateKeeps(sorted, n, price, date, t);
  }

  /** The closed rows of rows of one ticker are of that ticker. */
  lemma {:induction false} ClosedSelectionOf(s: seq<Lot>, t: string)
    requires AllOf(s, t)
    ensures AllOf(ClosedLots(s), t)
  {
    if s != [] {
      ClosedSelectionOf(s[1..], t);
    }
  }

  /** The rows of the sold ticker after a sale: its earlier closed lots, then the liquidated open ones. */
  lemma SellOfTicker(lots: seq<Lot>, t: string, n: int, price: real, date: int)
    requires AllWellFormed(lots)
    ensures OfTicker(SellLots(lots, t, n, price, date), t)
         == ClosedLots(OfTicker(lots, t)) + Liquidate(SortByOpenDate(OpenOf(lots, t)), n, price, date)
  {
    SellParts(lots, t, n, price, date);
    RowsOfTicker(ClosedLots(OfTicker(lots, t)), OtherTickers(lots, t),
                 Liquidate(SortByOpenDate(OpenOf(lots, t)), n, price, date), t);
  }

  lemma RowsOfTicker(closed: seq<Lot>, others: seq<Lot>, liq: seq<Lot>, t: string)
    requires AllOf(closed, t) && NoneOf(others, t) && AllOf(liq, t)
    ensures OfTicker(closed + others + liq, t) == closed + liq
  {
    OfTickerAllOf(closed, t);
    OfTickerNoneOf(others, t);
    OfTickerAllOf(liq, t);
    ConcatOfTicker(closed, others, liq, t);
  }

  lemma ConcatOfTicker(a: seq<Lot>, b: seq<Lot>, c: seq<Lot>, t: string)
    ensures OfTicker(a + b + c, t) == OfTicker(a, t) + OfTicker(b, t) + OfTicker(c, t)
  {
    OfTickerAppend(a + b, c, t);
    OfTickerAppend(a, b, t);
  }

  /** Selling preserves the well-formedness of the table. */
  lemma SellWellFormed(lots: seq<Lot>, t: string, n: int, price: real, date: int)
    requires AllWellFormed(lots)
    ensures AllWellFormed(SellLots(lots, t, n, price, date))
  {
    SellParts(lots, t, n, price, date);
  }

  /** Splitting the sold ticker's rows after a sale into closed and open ones. */
  lemma StatesOfTicker(closed: seq<Lot>, liq: seq<Lot>)
    requires AllClosed(closed)
    ensures ClosedLots(closed + liq) == closed + ClosedLots(liq)
    ensures OpenLots(closed + liq) == OpenLots(liq)
  {
    ClosedLotsAllClosed(closed);
    OpenLotsAllClosed(closed);
    ClosedLotsAppend(closed, liq);
    OpenLotsAppend(closed, liq);
  }

  /**
   * A sale of `n <= OpenTotal` shares keeps the ticker's number of shares,
   * closes exactly `n` of them, and leaves `OpenTotal - n` open.
   */
  lemma SellConservesShares(lots: seq<Lot>, t: string, n: int, price: real, date: int)
    requires AllWellFormed(lots)
    requires 0 <= n <= OpenTotal(lots, t)
    ensures var after := SellLots(lots, t, n, price, date);
      Shares(OfTicker(after, t)) == Shares(OfTicker(lots, t))
      && OpenTotal(after, t) == OpenTotal(lots, t) - n
      && ClosedTotal(after, t) == ClosedTotal(lots, t) + n
  {
    var sorted := SortByOpenDate(OpenOf(lots, t));
    var liq := Liquidate(sorted, n, price, date);
    var closed := ClosedLots(OfTicker(lots, t));
    SellParts(lots, t, n, price, date);
    SellOfTicker(lots, t, n, price, date);
    LiquidateMoves(sorted, n, price, date);
    StatesOfTicker(closed, liq);
    SharesThree(closed, liq, OfTicker(lots, t));
  }

  /** The share arithmetic of a sale, on the pieces it is built from. */
  lemma SharesThree(closed: seq<Lot>, liq: seq<Lot>, before: seq<Lot>)
    requires closed == ClosedLots(before)
    ensures Shares(closed + liq) == Shares(before) - Shares(OpenLots(before)) + Shares(OpenLots(liq)) + Shares(ClosedLots(liq))
    ensures Shares(closed + ClosedLots(liq)) == Shares(closed) + Shares(ClosedLots(liq))
  {
    SharesAppend(closed, liq);
    SharesSplitByState(before);
    SharesSplitByState(liq);
    SharesAppend(closed, ClosedLots(liq));
  }

  /** A sale leaves every other ticker's rows as they were, in their order. */
  lemma SellKeepsOtherTickers(lots: seq<Lot>, t: string, n: int, price: real, date: int, u: string)
    requires AllWellFormed(lots)
    requires u != t
    ensures OtherTickers(SellLots(lots, t, n, price, date), t) == OtherTickers(lots, t)
    ensures OfTicker(SellLots(lots, t, n, price, date), u) == OfTicker(lots, u)
  {
    var liq := Liquidate(SortByOpenDate(OpenOf(lots, t)), n, price, date);
    var closed := ClosedLots(OfTicker(lots, t));
    var others := OtherTickers(lots, t);
    SellParts(lots, t, n, price, date);
    OtherTickersAppend(closed + others, liq, t);
    OtherTickersAppend(closed, others, t);
    OtherTickersNoneOf(closed, t);
    OtherTickersAllOther(others, t);
    OtherTickersNoneOf(liq, t);
    assert NoneOf(closed, u) && NoneOf(liq, u);
    OfTickerAppend(closed + others, liq, u);
    OfTickerAppend(closed, others, u);
    OfTickerNoneOf(closed, u);
    OfTickerNoneOf(liq, u);
    OfTickerOfOthers(lots, t, u);
  }

  /**
   * The rows `after` of a ticker start with the lots it had closed in
   * `before`, unchanged and in order; in the rest, every closed lot was closed
   * at `price` on `date` and none was opened later than a lot that stays open.
   */
  predicate FifoSale(before: seq<Lot>, after: seq<Lot>, price: real, date: int)
  {
    var closed := ClosedLots(before);
    && |closed| <= |after|
    && after[..|closed|] == closed
    && ClosedFirst(after[|closed|..])
    && ClosedAt(after[|closed|..], price, date)
  }

  /** FIFO for a whole sale, on the rows of the sold ticker. */
  lemma SellIsFifo(lots: seq<Lot>, t: string, n: int, price: real, date: int)
    requires AllWellFormed(lots)
    ensures FifoSale(OfTicker(lots, t), OfTicker(SellLots(lots, t, n, price, date), t), price, date)
  {
    var sorted := SortByOpenDate(OpenOf(lots, t));
    var liq := Liquidate(sorted, n, price, date);
    var closed := ClosedLots(OfTicker(lots, t));
    assert ClosedFirst(liq) && ClosedAt(liq, price, date) by {
      SellParts(lots, t, n, price, date);
      LiquidateFifo(sorted, n, price, date);
    }
    SellOfTicker(lots, t, n, price, date);
    assert (closed + liq)[..|closed|] == closed;
    assert (closed + liq)[|closed|..] == liq;
  }
}
