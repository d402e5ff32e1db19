/**
 * The share table of the portfolio ledger (assets/portfolio.py): one row per lot
 * of shares, and the table-level selections and sums that buying, selling and
 * valuation are written in terms of.
 */
module Lots {
  import opened Wrappers

  /** One row of the share table; dates are day numbers. */
  datatype Lot = Lot(ticker: string, number: int, openPrice: real, openDate: int,
                     closePrice: Option<real>, closeDate: Option<int>, isClosed: bool)

  /** The row `buy` appends: an open lot with no close price or date. */
  function OpenLot(ticker: string, number: int, price: real, date: int): Lot
  {
    Lot(ticker, number, price, date, None, None, false)
  }

  /** The same lot, closed at `price` on `date`. */
  function Close(l: Lot, price: real, date: int): (c: Lot)
    ensures c.isClosed && c.closePrice == Some(price) && c.closeDate == Some(date)
    ensures c.ticker == l.ticker && c.number == l.number
    ensures c.openPrice == l.openPrice && c.openDate == l.openDate
  {
    l.(closePrice := Some(price), closeDate := Some(date), isClosed := true)
  }

  /** Closes every lot of `s`, keeping their order. */
  function CloseAll(s: seq<Lot>, price: real, date: int): (r: seq<Lot>)
    ensures |r| == |s|
  {
    if s == [] then [] else [Close(s[0], price, date)] + CloseAll(s[1..], price, date)
  }

  /** Closing the lots one index at a time gives CloseAll. */
  lemma {:induction false} CloseAllIndex(r: seq<Lot>, s: seq<Lot>, price: real, date: int)
    requires |r| == |s|
    requires forall j :: 0 <= j < |s| ==> r[j] == Close(s[j], price, date)
    ensures r == CloseAll(s, price, date)
  {
    if s != [] {
      CloseAllIndex(r[1..], s[1..], price, date);
      assert r == [r[0]] + r[1..];
    }
  }

  /** A lot holds a positive number of shares, and it has a close price and date exactly when it is closed. */
  predicate WellFormed(l: Lot)
  {
    l.number > 0 && (l.isClosed <==> l.closePrice.Some?) && (l.isClosed <==> l.closeDate.Some?)
  }

  predicate AllWellFormed(s: seq<Lot>)
  {
    forall i :: 0 <= i < |s| ==> WellFormed(s[i])
  }

  predicate AllOpen(s: seq<Lot>)
  {
    forall i :: 0 <= i < |s| ==> !s[i].isClosed
  }

  predicate AllClosed(s: seq<Lot>)
  {
    forall i :: 0 <= i < |s| ==> s[i].isClosed
  }

  predicate AllOf(s: seq<Lot>, t: string)
  {
    forall i :: 0 <= i < |s| ==> s[i].ticker == t
  }

  predicate NoneOf(s: seq<Lot>, t: string)
  {
    forall i :: 0 <= i < |s| ==> s[i].ticker != t
  }

  /** The rows of ticker `t`, in table order. */
  function OfTicker(s: seq<Lot>, t: string): (r: seq<Lot>)
  {
    if s == [] then [] else (if s[0].ticker == t then [s[0]] else []) + OfTicker(s[1..], t)
  }

  /** The rows of every other ticker, in table order. */
  function OtherTickers(s: seq<Lot>, t: string): (r: seq<Lot>)
  {
    if s == [] then [] else (if s[0].ticker != t then [s[0]] else []) + OtherTickers(s[1..], t)
  }

  /** The rows that are not closed, in table order. */
  function OpenLots(s: seq<Lot>): (r: seq<Lot>)
  {
    if s == [] then [] else (if !s[0].isClosed then [s[0]] else []) + OpenLots(s[1..])
  }

  /** The rows that are closed, in table order. */
  function ClosedLots(s: seq<Lot>): (r: seq<Lot>)
  {
    if s == [] then [] else (if s[0].isClosed then [s[0]] else []) + ClosedLots(s[1..])
  }

  /** Total number of shares in the rows `s`. */
  function Shares(s: seq<Lot>): int
  {
    if s == [] then 0 else s[0].number + Shares(s[1..])
  }

  /** The open rows of ticker `t`: what `sell` may liquidate. */
  function OpenOf(s: seq<Lot>, t: string): seq<Lot>
  {
    OpenLots(OfTicker(s, t))
  }

  /** Number of open shares of ticker `t`. */
  function OpenTotal(s: seq<Lot>, t: string): int
  {
    Shares(OpenOf(s, t))
  }

  /** Number of closed (sold) shares of ticker `t`. */
  function ClosedTotal(s: seq<Lot>, t: string): int
  {
    Shares(ClosedLots(OfTicker(s, t)))
  }

  /** Every ticker that has a row in `s`. */
  function Tickers(s: seq<Lot>): (r: set<string>)
    ensures forall t :: t in r <==> exists l :: l in s && l.ticker == t
  {
    if s == [] then {} else {s[0].ticker} + Tickers(s[1..])
  }

  // ---------------------------------------------------------------------------
  // Distribution over concatenation

  lemma CatAssoc<T>(x: seq<T>, y: seq<T>, z: seq<T>)
    ensures x + (y + z) == (x + y) + z
  {
  }

  lemma {:induction false} OfTickerAppend(a: seq<Lot>, b: seq<Lot>, t: string)
    ensures OfTicker(a + b, t) == OfTicker(a, t) + OfTicker(b, t)
  {
    if a == [] {
      assert a + b == b;
    } else {
      var x := OfTicker(a[1..], t);
      var y := OfTicker(b, t);
      assert (a + b)[0] == a[0] && (a + b)[1..] == a[1..] + b;
      OfTickerAppend(a[1..], b, t);
      if a[0].ticker == t {
        assert OfTicker(a + b, t) == [a[0]] + (x + y);
        assert OfTicker(a, t) == [a[0]] + x;
        CatAssoc([a[0]], x, y);
      } else {
        assert OfTicker(a + b, t) == [] + (x + y) == x + y;
        assert OfTicker(a, t) == [] + x == x;
      }
    }
  }

  lemma {:induction false} OtherTickersAppend(a: seq<Lot>, b: seq<Lot>, t: string)
    ensures OtherTickers(a + b, t) == OtherTickers(a, t) + OtherTickers(b, t)
  {
    if a == [] {
      assert a + b == b;
    } else {
      var x := OtherTickers(a[1..], t);
      var y := OtherTickers(b, t);
      assert (a + b)[0] == a[0] && (a + b)[1..] == a[1..] + b;
      OtherTickersAppend(a[1..], b, t);
      if a[0].ticker != t {
        assert OtherTickers(a + b, t) == [a[0]] + (x + y);
        assert OtherTickers(a, t) == [a[0]] + x;
        CatAssoc([a[0]], x, y);
      } else {
        assert OtherTickers(a + b, t) == [] + (x + y) == x + y;
        assert OtherTickers(a, t) == [] + x == x;
      }
    }
  }

  lemma {:induction false} OpenLotsAppend(a: seq<Lot>, b: seq<Lot>)
    ensures OpenLots(a + b) == OpenLots(a) + OpenLots(b)
  {
    if a == [] {
      assert a + b == b;
    } else {
      var x := OpenLots(a[1..]);
      var y := OpenLots(b);
      assert (a + b)[0] == a[0] && (a + b)[1..] == a[1..] + b;
      OpenLotsAppend(a[1..], b);
      if !a[0].isClosed {
        assert OpenLots(a + b) == [a[0]] + (x + y);
        assert OpenLots(a) == [a[0]] + x;
        CatAssoc([a[0]], x, y);
      } else {
        assert OpenLots(a + b) == [] + (x + y) == x + y;
        assert OpenLots(a) == [] + x == x;
      }
    }
  }

  lemma {:induction false} ClosedLotsAppend(a: seq<Lot>, b: seq<Lot>)
    ensures ClosedLots(a + b) == ClosedLots(a) + ClosedLots(b)
  {
    if a == [] {
      assert a + b == b;
    } else {
      var x := ClosedLots(a[1..]);
      var y := ClosedLots(b);
      assert (a + b)[0] == a[0] && (a + b)[1..] == a[1..] + b;
      ClosedLotsAppend(a[1..], b);
      if a[0].isClosed {
        assert ClosedLots(a + b) == [a[0]] + (x + y);
        assert ClosedLots(a) == [a[0]] + x;
        CatAssoc([a[0]], x, y);
      } else {
        assert ClosedLots(a + b) == [] + (x + y) == x + y;
        assert ClosedLots(a) == [] + x == x;
      }
    }
  }

  lemma {:induction false} SharesAppend(a: seq<Lot>, b: seq<Lot>)
    ensures Shares(a + b) == Shares(a) + Shares(b)
  {
    if a == [] {
      assert a + b == b;
    } else {
      assert (a + b)[1..] == a[1..] + b;
      SharesAppend(a[1..], b);
    }
  }

  // ---------------------------------------------------------------------------
  // Selections of selections

  lemma {:induction false} OfTickerAllOf(s: seq<Lot>, t: string)
    requires AllOf(s, t)
    ensures OfTicker(s, t) == s
  {
    if s != [] {
      OfTickerAllOf(s[1..], t);
    }
  }

  lemma {:induction false} OfTickerNoneOf(s: seq<Lot>, t: string)
    requires NoneOf(s, t)
    ensures OfTicker(s, t) == []
  {
    if s != [] {
      OfTickerNoneOf(s[1..], t);
    }
  }

  lemma {:induction false} OtherTickersNoneOf(s: seq<Lot>, t: string)
    requires AllOf(s, t)
    ensures OtherTickers(s, t) == []
  {
    if s != [] {
      OtherTickersNoneOf(s[1..], t);
    }
  }

  lemma {:induction false} OtherTickersAllOther(s: seq<Lot>, t: string)
    requires NoneOf(s, t)
    ensures OtherTickers(s, t) == s
  {
    if s != [] {
      OtherTickersAllOther(s[1..], t);
    }
  }

  /** Selecting ticker `u` from the rows of every ticker but `t` selects ticker `u` from the whole table. */
  lemma {:induction false} OfTickerOfOthers(s: seq<Lot>, t: string, u: string)
    requires u != t
    ensures OfTicker(OtherTickers(s, t), u) == OfTicker(s, u)
  {
    if s != [] {
      var head := if s[0].ticker != t then [s[0]] else [];
      assert OtherTickers(s, t) == head + OtherTickers(s[1..], t);
      OfTickerAppend(head, OtherTickers(s[1..], t), u);
      assert OfTicker(head, u) == (if s[0].ticker == u then [s[0]] else []);
      OfTickerOfOthers(s[1..], t, u);
    }
  }

  lemma {:induction false} OpenLotsAllOpen(s: seq<Lot>)
    requires AllOpen(s)
    ensures OpenLots(s) == s
  {
    if s != [] {
      OpenLotsAllOpen(s[1..]);
    }
  }

  lemma {:induction false} ClosedLotsAllOpen(s: seq<Lot>)
    requires AllOpen(s)
    ensures ClosedLots(s) == []
  {
    if s != [] {
      ClosedLotsAllOpen(s[1..]);
    }
  }

  lemma {:induction false} OpenLotsAllClosed(s: seq<Lot>)
    requires AllClosed(s)
    ensures OpenLots(s) == []
  {
    if s != [] {
      OpenLotsAllClosed(s[1..]);
    }
  }

  lemma {:induction false} ClosedLotsAllClosed(s: seq<Lot>)
    requires AllClosed(s)
    ensures ClosedLots(s) == s
  {
    if s != [] {
      ClosedLotsAllClosed(s[1..]);
    }
  }

  lemma {:induction false} OpenLotsOfTicker(s: seq<Lot>, t: string)
    ensures OpenLots(OfTicker(s, t)) == OfTicker(OpenLots(s), t)
  {
    if s != [] {
      OpenLotsAppend(if s[0].ticker == t then [s[0]] else [], OfTicker(s[1..], t));
      OfTickerAppend(if !s[0].isClosed then [s[0]] else [], OpenLots(s[1..]), t);
      OpenLotsOfTicker(s[1..], t);
    }
  }

  /** Every lot of a ticker is either open or closed. */
  lemma {:induction false} SharesSplitByState(s: seq<Lot>)
    ensures Shares(s) == Shares(OpenLots(s)) + Shares(ClosedLots(s))
  {
    if s != [] {
      SharesSplitByState(s[1..]);
      SharesAppend(if !s[0].isClosed then [s[0]] else [], OpenLots(s[1..]));
      SharesAppend(if s[0].isClosed then [s[0]] else [], ClosedLots(s[1..]));
    }
  }

  lemma {:induction false} SharesPositive(s: seq<Lot>)
    requires AllWellFormed(s)
    ensures Shares(s) >= 0
    ensures s != [] ==> Shares(s) > 0
  {
    if s != [] {
      assert WellFormed(s[0]);
      SharesPositive(s[1..]);
    }
  }

  /** The positions' key set: a ticker has open rows exactly when it has a positive open total. */
  lemma OpenTotalPositive(s: seq<Lot>, t: string)
    requires AllWellFormed(s)
    ensures OpenTotal(s, t) > 0 <==> t in Tickers(OpenLots(s))
  {
    OpenLotsOfTicker(s, t);
    SelectionsWellFormed(s, t);
    SelectionsWellFormed(OfTicker(s, t), t);
    SharesPositive(OpenOf(s, t));
    TickersOfTicker(OpenLots(s), t);
  }

  lemma {:induction false} TickersOfTicker(s: seq<Lot>, t: string)
    ensures t in Tickers(s) <==> OfTicker(s, t) != []
  {
    if s != [] {
      TickersOfTicker(s[1..], t);
    }
  }

  /** Each selection keeps well-formedness and has the property it selects by. */
  lemma {:induction false} SelectionsWellFormed(s: seq<Lot>, t: string)
    requires AllWellFormed(s)
    ensures AllWellFormed(OfTicker(s, t)) && AllWellFormed(OtherTickers(s, t))
    ensures AllWellFormed(OpenLots(s)) && AllWellFormed(ClosedLots(s))
  {
    if s != [] {
      assert WellFormed(s[0]);
      SelectionsWellFormed(s[1..], t);
    }
  }

  lemma {:induction false} SelectionsSelect(s: seq<Lot>, t: string)
    ensures AllOf(OfTicker(s, t), t) && NoneOf(OtherTickers(s, t), t)
    ensures AllOpen(OpenLots(s)) && AllClosed(ClosedLots(s))
  {
    OfTickerSelects(s, t);
    OtherTickersSelect(s, t);
    OpenLotsSelect(s);
    ClosedLotsSelect(s);
  }

  lemma {:induction false} OfTickerSelects(s: seq<Lot>, t: string)
    ensures AllOf(OfTicker(s, t), t)
  {
    if s != [] {
      OfTickerSelects(s[1..], t);
      var h: seq<Lot> := if s[0].ticker == t then [s[0]] else [];
      var r := OfTicker(s[1..], t);
      assert OfTicker(s, t) == h + r;
      forall i | 0 <= i < |h + r| ensures (h + r)[i].ticker == t {
        if i >= |h| {
          assert (h + r)[i] == r[i - |h|];
        }
      }
    }
  }

  lemma {:induction false} OtherTickersSelect(s: seq<Lot>, t: string)
    ensures NoneOf(OtherTickers(s, t), t)
  {
    if s != [] {
      OtherTickersSelect(s[1..], t);
      var h: seq<Lot> := if s[0].ticker != t then [s[0]] else [];
      var r := OtherTickers(s[1..], t);
      assert OtherTickers(s, t) == h + r;
      forall i | 0 <= i < |h + r| ensures (h + r)[i].ticker != t {
        if i >= |h| {
          assert (h + r)[i] == r[i - |h|];
        }
      }
    }
  }

  lemma {:induction false} OpenLotsSelect(s: seq<Lot>)
    ensures AllOpen(OpenLots(s))
  {
    if s != [] {
      OpenLotsSelect(s[1..]);
      var h: seq<Lot> := if !s[0].isClosed then [s[0]] else [];
      var r := OpenLots(s[1..]);
      assert OpenLots(s) == h + r;
      forall i | 0 <= i < |h + r| ensures !(h + r)[i].isClosed {
        if i >= |h| {
          assert (h + r)[i] == r[i - |h|];
        }
      }
    }
  }

  lemma {:induction false} ClosedLotsSelect(s: seq<Lot>)
    ensures AllClosed(ClosedLots(s))
  {
    if s != [] {
      ClosedLotsSelect(s[1..]);
      var h: seq<Lot> := if s[0].isClosed then [s[0]] else [];
      var r := ClosedLots(s[1..]);
      assert ClosedLots(s) == h + r;
      forall i | 0 <= i < |h + r| ensures (h + r)[i].isClosed {
        if i >= |h| {
          assert (h + r)[i] == r[i - |h|];
        }
      }
    }
  }

  /** Two tables with the same rows satisfy the same row-wise predicates. */
  lemma SameRows(a: seq<Lot>, b: seq<Lot>, t: string)
    requires multiset(a) == multiset(b)
    ensures AllWellFormed(a) ==> AllWellFormed(b)
    ensures AllOpen(a) ==> AllOpen(b)
    ensures AllOf(a, t) ==> AllOf(b, t)
  {
    forall i | 0 <= i < |b| ensures exists j :: 0 <= j < |a| && a[j] == b[i] {
      assert b[i] in multiset(a);
    }
  }

  /** A bought row adds its shares to its ticker's open total and to no other ticker's. */
  lemma OpenTotalAppendOpen(s: seq<Lot>, l: Lot, t: string)
    requires !l.isClosed
    ensures OpenTotal(s + [l], t) == OpenTotal(s, t) + (if l.ticker == t then l.number else 0)
  {
    OfTickerAppend(s, [l], t);
    OpenLotsAppend(OfTicker(s, t), OfTicker([l], t));
    SharesAppend(OpenOf(s, t), OpenLots(OfTicker([l], t)));
  }

  // ---------------------------------------------------------------------------
  // Sorting the open rows by opening date

  predicate SortedByDate(s: seq<Lot>)
  {
    forall i, j :: 0 <= i < j < |s| ==> s[i].openDate <= s[j].openDate
  }

  /** Inserts `x` in front of the first row that is not older than it. */
  function InsertByDate(x: Lot, s: seq<Lot>): (r: seq<Lot>)
    ensures multiset(r) == multiset(s) + multiset{x}
    ensures |r| == |s| + 1
  {
    if s == [] || x.openDate <= s[0].openDate then [x] + s
    else
      assert s == [s[0]] + s[1..];
      [s[0]] + InsertByDate(x, s[1..])
  }

  /** Inserting into rows sorted by opening date keeps them sorted. */
  lemma {:induction false} InsertSorted(x: Lot, s: seq<Lot>)
    requires SortedByDate(s)
    ensures SortedByDate(InsertByDate(x, s))
  {
    if s != [] && x.openDate > s[0].openDate {
      InsertSorted(x, s[1..]);
      assert s == [s[0]] + s[1..];
      PrependOldest(s[0], x, s[1..], InsertByDate(x, s[1..]));
    } else {
      var r := [x] + s;
      forall i, j | 0 <= i < j < |r|
        ensures r[i].openDate <= r[j].openDate
      {
        assert r[j] == s[j - 1];
        if i > 0 {
          assert r[i] == s[i - 1];
        } else if j > 1 {
          assert s[0].openDate <= s[j - 1].openDate;
        }
      }
    }
  }

  lemma PrependOldest(a: Lot, x: Lot, tail: seq<Lot>, rest: seq<Lot>)
    requires SortedByDate([a] + tail) && SortedByDate(rest)
    requires multiset(rest) == multiset(tail) + multiset{x} && a.openDate < x.openDate
    ensures SortedByDate([a] + rest)
  {
    var r := [a] + rest;
    forall i, j | 0 <= i < j < |r|
      ensures r[i].openDate <= r[j].openDate
    {
      var y := rest[j - 1];
      assert r[j] == y;
      if i == 0 {
        assert y in multiset(rest);
        if y != x {
          assert y in multiset(tail);
          var k :| 0 <= k < |tail| && tail[k] == y;
          assert ([a] + tail)[0] == a && ([a] + tail)[k + 1] == y;
        }
      } else {
        assert r[i] == rest[i - 1];
      }
    }
  }

  lemma {:induction false} InsertShares(x: Lot, s: seq<Lot>)
    ensures Shares(InsertByDate(x, s)) == x.number + Shares(s)
  {
    if s != [] && x.openDate > s[0].openDate {
      InsertShares(x, s[1..]);
    }
  }

  /**
   * The open rows ordered by opening date, oldest first; rows opened on the same
   * day keep their table order.
   */
  function SortByOpenDate(s: seq<Lot>): (r: seq<Lot>)
    ensures SortedByDate(r)
    ensures multiset(r) == multiset(s)
  {
    if s == [] then []
    else
      assert s == [s[0]] + s[1..];
      InsertSorted(s[0], SortByOpenDate(s[1..]));
      InsertByDate(s[0], SortByOpenDate(s[1..]))
  }

  /** The rows opened on day `d`, in table order. */
  function OpenedOn(s: seq<Lot>, d: int): seq<Lot>
  {
    if s == [] then [] else (if s[0].openDate == d then [s[0]] else []) + OpenedOn(s[1..], d)
  }

  /** Insertion puts `x` in front of every row opened on its own day. */
  lemma {:induction false} InsertByDateStable(x: Lot, s: seq<Lot>, d: int)
    ensures OpenedOn(InsertByDate(x, s), d) == (if x.openDate == d then [x] else []) + OpenedOn(s, d)
  {
    if s != [] && x.openDate > s[0].openDate {
      var r := InsertByDate(x, s[1..]);
      var rest := OpenedOn(s[1..], d);
      InsertByDateStable(x, s[1..], d);
      assert ([s[0]] + r)[0] == s[0] && ([s[0]] + r)[1..] == r;
      if s[0].openDate == d {
        assert OpenedOn([s[0]] + r, d) == [s[0]] + ([] + rest);
        assert OpenedOn(s, d) == [s[0]] + rest;
      } else {
        assert OpenedOn([s[0]] + r, d) == [] + OpenedOn(r, d);
        assert OpenedOn(s, d) == [] + rest;
      }
    } else {
      assert ([x] + s)[0] == x && ([x] + s)[1..] == s;
    }
  }

  /** The sort is stable: the rows opened on any one day keep their table order. */
  lemma {:induction false} SortByOpenDateStable(s: seq<Lot>, d: int)
    ensures OpenedOn(SortByOpenDate(s), d) == OpenedOn(s, d)
  {
    if s != [] {
      SortByOpenDateStable(s[1..], d);
      InsertByDateStable(s[0], SortByOpenDate(s[1..]), d);
    }
  }

  lemma {:induction false} SortShares(s: seq<Lot>)
    ensures Shares(SortByOpenDate(s)) == Shares(s)
  {
    if s != [] {
      SortShares(s[1..]);
      InsertShares(s[0], SortByOpenDate(s[1..]));
    }
  }
}
