/**
 * Valuation of the share table (assets/portfolio.py): the market value of the
 * open lots under a price lookup, and the per-ticker positions; with how a
 * purchase and a sale change them.
 */
module Valuation {
  import opened Wrappers
  import opened Lots
  import opened Fifo

  /** A lot can be valued: it is closed or its ticker has a market price. */
  predicate Quoted(l: Lot, prices: map<string, real>)
  {
    l.isClosed || l.ticker in prices
  }

  /** Every open lot's ticker has a market price; otherwise valuation fails. */
  predicate Priced(s: seq<Lot>, prices: map<string, real>)
  {
    s == [] || (Quoted(s[0], prices) && Priced(s[1..], prices))
  }

  /**
   * `n` shares at price `p`: the product `p * n`, written as a repeated sum so
   * that the proofs about sums of positions stay linear (ScaleIsProduct).
   */
  function Scale(p: real, n: int): real
    decreases if n < 0 then -n else n
  {
    if n == 0 then 0.0 else if n > 0 then Scale(p, n - 1) + p else Scale(p, n + 1) - p
  }

  lemma {:induction false} ScaleIsProduct(p: real, n: int)
    ensures Scale(p, n) == p * n as real
    decreases if n < 0 then -n else n
  {
    if n > 0 {
      ScaleIsProduct(p, n - 1);
    } else if n < 0 {
      ScaleIsProduct(p, n + 1);
    }
  }

  lemma {:induction false} ScaleAdd(p: real, a: int, b: int, sum: int)
    requires sum == a + b
    ensures Scale(p, sum) == Scale(p, a) + Scale(p, b)
    decreases if b < 0 then -b else b
  {
    if b > 0 {
      ScaleAdd(p, a, b - 1, sum - 1);
      ScaleStep(p, sum - 1);
    } else if b < 0 {
      ScaleAdd(p, a, b + 1, sum + 1);
      ScaleStep(p, sum);
    }
  }

  lemma ScaleStep(p: real, n: int)
    ensures Scale(p, n + 1) == Scale(p, n) + p
  {
  }

  /** Market value of one lot: nothing once it is closed. */
  function Worth(l: Lot, prices: map<string, real>): real
    requires Quoted(l, prices)
  {
    if l.isClosed then 0.0 else Scale(prices[l.ticker], l.number)
  }

  /** Market value of the open lots of `s`, summed in table order. */
  function Value(s: seq<Lot>, prices: map<string, real>): real
    requires Priced(s, prices)
  {
    if s == [] then 0.0 else Worth(s[0], prices) + Value(s[1..], prices)
  }

  lemma ValueCons(l: Lot, s: seq<Lot>, prices: map<string, real>)
    ensures Priced([l] + s, prices) <==> Quoted(l, prices) && Priced(s, prices)
    ensures Priced([l] + s, prices) ==> Value([l] + s, prices) == Worth(l, prices) + Value(s, prices)
  {
    assert ([l] + s)[0] == l;
    assert ([l] + s)[1..] == s;
  }

  /** A table is priced exactly when every one of its open lots is. */
  lemma {:induction false} PricedIndex(s: seq<Lot>, prices: map<string, real>)
    ensures Priced(s, prices) <==> forall i :: 0 <= i < |s| ==> Quoted(s[i], prices)
  {
    if s != [] {
      PricedIndex(s[1..], prices);
      assert forall i :: 0 < i < |s| ==> s[i] == s[1..][i - 1];
    }
  }

  lemma {:induction false} ValueAppend(a: seq<Lot>, b: seq<Lot>, prices: map<string, real>)
    ensures Priced(a + b, prices) <==> Priced(a, prices) && Priced(b, prices)
    ensures Priced(a + b, prices) ==> Value(a + b, prices) == Value(a, prices) + Value(b, prices)
  {
    if a == [] {
      assert a + b == b;
    } else {
      assert a + b == [a[0]] + (a[1..] + b);
      ValueAppend(a[1..], b, prices);
      ValueCons(a[0], a[1..] + b, prices);
    }
  }

  /** Closed lots are worth nothing to the valuation. */
  lemma {:induction false} ValueAllClosed(s: seq<Lot>, prices: map<string, real>)
    requires AllClosed(s)
    ensures Priced(s, prices) && Value(s, prices) == 0.0
  {
    if s != [] {
      ValueAllClosed(s[1..], prices);
    }
  }

  /** The rows of one ticker are worth its price times its open shares. */
  lemma {:induction false} ValueOfOneTicker(s: seq<Lot>, t: string, prices: map<string, real>)
    requires AllOf(s, t) && t in prices
    ensures Priced(s, prices)
    ensures Value(s, prices) == Scale(prices[t], Shares(OpenLots(s)))
  {
    if s != [] {
      assert s[0].ticker == t;
      ValueOfOneTicker(s[1..], t, prices);
      var k := Shares(OpenLots(s[1..]));
      if s[0].isClosed {
        assert OpenLots(s) == OpenLots(s[1..]);
      } else {
        assert OpenLots(s) == [s[0]] + OpenLots(s[1..]);
        ScaleAdd(prices[t], s[0].number, k, Shares(OpenLots(s)));
      }
    }
  }

  /** Adding an open lot with a price adds price times number to the value. */
  lemma ValueSnoc(s: seq<Lot>, l: Lot, prices: map<string, real>)
    requires Priced(s, prices) && !l.isClosed && l.ticker in prices
    ensures Priced(s + [l], prices)
    ensures Value(s + [l], prices) == Value(s, prices) + prices[l.ticker] * l.number as real
  {
    assert Priced([l], prices) && Value([l], prices) == Scale(prices[l.ticker], l.number) by {
      assert [l][1..] == [];
      assert Priced([], prices) && Value([], prices) == 0.0;
    }
    ValueAppend(s, [l], prices);
    ScaleIsProduct(prices[l.ticker], l.number);
  }

  /** Valuation splits into the rows of ticker `t` and the rows of the others. */
  lemma {:induction false} ValuePartition(s: seq<Lot>, t: string, prices: map<string, real>)
    requires Priced(s, prices)
    ensures Priced(OfTicker(s, t), prices) && Priced(OtherTickers(s, t), prices)
    ensures Value(s, prices) == Value(OfTicker(s, t), prices) + Value(OtherTickers(s, t), prices)
  {
    if s != [] {
      ValuePartition(s[1..], t, prices);
      if s[0].ticker == t {
        assert OfTicker(s, t) == [s[0]] + OfTicker(s[1..], t);
        assert OtherTickers(s, t) == OtherTickers(s[1..], t);
        ValueCons(s[0], OfTicker(s[1..], t), prices);
      } else {
        assert OtherTickers(s, t) == [s[0]] + OtherTickers(s[1..], t);
        assert OfTicker(s, t) == OfTicker(s[1..], t);
        ValueCons(s[0], OtherTickers(s[1..], t), prices);
      }
    }
  }

  /** Valuing the open rows alone gives the same value. */
  lemma {:induction false} ValueOpenLots(s: seq<Lot>, prices: map<string, real>)
    ensures Priced(s, prices) <==> Priced(OpenLots(s), prices)
    ensures Priced(s, prices) ==> Value(OpenLots(s), prices) == Value(s, prices)
  {
    if s != [] {
      ValueOpenLots(s[1..], prices);
      if s[0].isClosed {
        assert OpenLots(s) == OpenLots(s[1..]);
      } else {
        assert OpenLots(s) == [s[0]] + OpenLots(s[1..]);
        ValueCons(s[0], OpenLots(s[1..]), prices);
      }
    }
  }

  /** A ticker with open shares in a priced table has a price. */
  lemma {:induction false} PricedTicker(s: seq<Lot>, t: string, prices: map<string, real>)
    requires Priced(s, prices) && OpenTotal(s, t) != 0
    ensures t in prices
  {
    if s[0].ticker == t && !s[0].isClosed {
    } else {
      assert OpenOf(s, t) == OpenOf(s[1..], t) by {
        if s[0].ticker == t {
          OpenLotsAppend([s[0]], OfTicker(s[1..], t));
        } else {
          assert OfTicker(s, t) == OfTicker(s[1..], t);
        }
      }
      PricedTicker(s[1..], t, prices);
    }
  }

  /**
   * Selling `n` shares of `t` lowers the market value of the table by `n`
   * times the market price of `t`: a sale at the market price leaves the net
   * worth unchanged.
   */
  lemma SellValue(lots: seq<Lot>, t: string, n: int, price: real, date: int, prices: map<string, real>)
    requires AllWellFormed(lots) && Priced(lots, prices)
    requires 0 < n <= OpenTotal(lots, t)
    ensures t in prices
    ensures Priced(SellLots(lots, t, n, price, date), prices)
    ensures Value(SellLots(lots, t, n, price, date), prices) == Value(lots, prices) - Scale(prices[t], n)
  {
    PricedTicker(lots, t, prices);
    var p := prices[t];
    var total := OpenTotal(lots, t);
    var liq := Liquidate(SortByOpenDate(OpenOf(lots, t)), n, price, date);
    var closed := ClosedLots(OfTicker(lots, t));
    var others := OtherTickers(lots, t);
    ValueBySelection(lots, t, prices);
    ValueOfSold(lots, t, n, price, date, prices);
    ValueOfClosed(lots, t, prices);
    ValueOfThree(closed, others, liq, prices);
  }

  /** Value of a table: its open shares of `t` at the price of `t`, plus the other tickers' rows. */
  lemma ValueBySelection(lots: seq<Lot>, t: string, prices: map<string, real>)
    requires Priced(lots, prices) && t in prices
    ensures Priced(OtherTickers(lots, t), prices)
    ensures Value(lots, prices) == Scale(prices[t], OpenTotal(lots, t)) + Value(OtherTickers(lots, t), prices)
  {
    ValuePartition(lots, t, prices);
    SelectionsSelect(lots, t);
    ValueOfOneTicker(OfTicker(lots, t), t, prices);
  }

  lemma ValueOfSold(lots: seq<Lot>, t: string, n: int, price: real, date: int, prices: map<string, real>)
    requires AllWellFormed(lots) && t in prices
    requires 0 <= n <= OpenTotal(lots, t)
    ensures var liq := Liquidate(SortByOpenDate(OpenOf(lots, t)), n, price, date);
      Priced(liq, prices) && Value(liq, prices) == Scale(prices[t], OpenTotal(lots, t)) - Scale(prices[t], n)
  {
    SaleRemainder(lots, t, n, price, date);
    ValueOfRemainder(Liquidate(SortByOpenDate(OpenOf(lots, t)), n, price, date), t, OpenTotal(lots, t), n, prices);
  }

  lemma ValueOfRemainder(liq: seq<Lot>, t: string, total: int, n: int, prices: map<string, real>)
    requires AllOf(liq, t) && t in prices && Shares(OpenLots(liq)) == total - n
    ensures Priced(liq, prices) && Value(liq, prices) == Scale(prices[t], total) - Scale(prices[t], n)
  {
    ValueOfOneTicker(liq, t, prices);
    ScaleAdd(prices[t], total - n, n, total);
  }

  lemma ValueOfClosed(lots: seq<Lot>, t: string, prices: map<string, real>)
    ensures Priced(ClosedLots(OfTicker(lots, t)), prices) && Value(ClosedLots(OfTicker(lots, t)), prices) == 0.0
  {
    SelectionsSelect(OfTicker(lots, t), t);
    ValueAllClosed(ClosedLots(OfTicker(lots, t)), prices);
  }

  lemma ValueOfThree(a: seq<Lot>, b: seq<Lot>, c: seq<Lot>, prices: map<string, real>)
    requires Priced(a, prices) && Priced(b, prices) && Priced(c, prices)
    ensures Priced(a + b + c, prices)
    ensures Value(a + b + c, prices) == Value(a, prices) + Value(b, prices) + Value(c, prices)
  {
    ValueAppend(a, b, prices);
    ValueAppend(a + b, c, prices);
  }

  /** The liquidated rows keep the ticker and hold the shares the sale leaves open. */
  lemma SaleRemainder(lots: seq<Lot>, t: string, n: int, price: real, date: int)
    requires AllWellFormed(lots)
    requires 0 <= n <= OpenTotal(lots, t)
    ensures var liq := Liquidate(SortByOpenDate(OpenOf(lots, t)), n, price, date);
      AllOf(liq, t) && Shares(OpenLots(liq)) == OpenTotal(lots, t) - n
  {
    SellParts(lots, t, n, price, date);
    LiquidateMoves(SortByOpenDate(OpenOf(lots, t)), n, price, date);
  }

  /** Buying adds the lot's market value to the table's. */
  lemma BuyValue(lots: seq<Lot>, t: string, n: int, price: real, date: int, prices: map<string, real>)
    requires Priced(lots, prices) && t in prices
    ensures Priced(lots + [OpenLot(t, n, price, date)], prices)
    ensures Value(lots + [OpenLot(t, n, price, date)], prices) == Value(lots, prices) + Scale(prices[t], n)
  {
    var l := OpenLot(t, n, price, date);
    assert Priced([l], prices);
    ValueAppend(lots, [l], prices);
  }

  /**
   * Net worth, free funds plus market value, is unchanged by a sale at the
   * market price: the funds gain the price of the `n` shares
   * (`Scale(price, n) == price * n`, ScaleIsProduct) and the table loses as much.
   */
  lemma SaleAtMarketKeepsWorth(lots: seq<Lot>, free: real, t: string, n: int, date: int, prices: map<string, real>)
    requires AllWellFormed(lots) && Priced(lots, prices)
    requires 0 < n <= OpenTotal(lots, t)
    ensures t in prices && Priced(SellLots(lots, t, n, prices[t], date), prices)
    ensures (free + Scale(prices[t], n)) + Value(SellLots(lots, t, n, prices[t], date), prices)
      == free + Value(lots, prices)
  {
    PricedTicker(lots, t, prices);
    SellValue(lots, t, n, prices[t], date, prices);
  }

  /** Net worth is unchanged by a purchase at the market price: the funds lose what the table gains. */
  lemma BuyAtMarketKeepsWorth(lots: seq<Lot>, free: real, t: string, n: int, date: int, prices: map<string, real>)
    requires Priced(lots, prices) && t in prices
    ensures Priced(lots + [OpenLot(t, n, prices[t], date)], prices)
    ensures (free - Scale(prices[t], n)) + Value(lots + [OpenLot(t, n, prices[t], date)], prices)
      == free + Value(lots, prices)
  {
    BuyValue(lots, t, n, prices[t], date, prices);
  }

  // ---------------------------------------------------------------------------
  // Positions

  lemma PositionsFacts(lots: seq<Lot>)
    requires AllWellFormed(lots)
    ensures forall t :: t in Tickers(OpenLots(lots)) <==> OpenTotal(lots, t) > 0
    ensures forall t :: Shares(OfTicker(OpenLots(lots), t)) == OpenTotal(lots, t)
  {
    forall t ensures (t in Tickers(OpenLots(lots)) <==> OpenTotal(lots, t) > 0)
      && Shares(OfTicker(OpenLots(lots), t)) == OpenTotal(lots, t)
    {
      OpenTotalPositive(lots, t);
      OpenLotsOfTicker(lots, t);
    }
  }

  /**
   * Number of open shares per ticker; a ticker without open lots is absent,
   * not mapped to zero.
   */
  function Positions(lots: seq<Lot>): (r: map<string, int>)
    requires AllWellFormed(lots)
    ensures forall t :: t in r <==> OpenTotal(lots, t) > 0
    ensures forall t :: t in r ==> r[t] == OpenTotal(lots, t)
  {
    PositionsFacts(lots);
    var open := OpenLots(lots);
    map t | t in Tickers(open) :: Shares(OfTicker(open, t))
  }

  /** A map that agrees with the open totals of a table is its positions. */
  lemma PositionsAre(lots: seq<Lot>, expected: map<string, int>)
    requires AllWellFormed(lots)
    requires forall u :: u in expected <==> OpenTotal(lots, u) > 0
    requires forall u :: u in expected ==> expected[u] == OpenTotal(lots, u)
    ensures Positions(lots) == expected
  {
  }

  /** Buying `n > 0` shares of `t` adds `n` to its position and changes no other. */
  lemma BuyPositions(lots: seq<Lot>, t: string, n: int, price: real, date: int)
    requires AllWellFormed(lots) && n > 0
    ensures AllWellFormed(lots + [OpenLot(t, n, price, date)])
    ensures Positions(lots + [OpenLot(t, n, price, date)]) == Positions(lots)[t := OpenTotal(lots, t) + n]
  {
    var l := OpenLot(t, n, price, date);
    var after := lots + [l];
    assert AllWellFormed(after) by {
      forall i | 0 <= i < |after| ensures WellFormed(after[i]) {
        if i < |lots| { assert after[i] == lots[i]; }
      }
    }
    assert OpenTotal(lots, t) >= 0 by {
      SelectionsWellFormed(lots, t);
      SelectionsWellFormed(OfTicker(lots, t), t);
      SharesPositive(OpenOf(lots, t));
    }
    var expected := Positions(lots)[t := OpenTotal(lots, t) + n];
    forall u ensures OpenTotal(after, u) == OpenTotal(lots, u) + (if u == t then n else 0) {
      OpenTotalAppendOpen(lots, l, u);
    }
    PositionsAre(after, expected);
  }

  /**
   * Selling `n` of the open shares of `t` lowers its position by `n`, removes
   * it when none are left, and changes no other position.
   */
  lemma SellPositions(lots: seq<Lot>, t: string, n: int, price: real, date: int)
    requires AllWellFormed(lots)
    requires 0 < n <= OpenTotal(lots, t)
    ensures AllWellFormed(SellLots(lots, t, n, price, date))
    ensures Positions(SellLots(lots, t, n, price, date))
         == if n == OpenTotal(lots, t) then Positions(lots) - {t}
            else Positions(lots)[t := OpenTotal(lots, t) - n]
  {
    var after := SellLots(lots, t, n, price, date);
    SellWellFormed(lots, t, n, price, date);
    assert OpenTotal(after, t) == OpenTotal(lots, t) - n by {
      SellConservesShares(lots, t, n, price, date);
    }
    assert forall u :: u != t ==> OpenTotal(after, u) == OpenTotal(lots, u) by {
      forall u | u != t ensures OpenTotal(after, u) == OpenTotal(lots, u) {
        SellKeepsOtherTickers(lots, t, n, price, date, u);
      }
    }
    PositionsAfterSale(lots, after, t, n);
  }

  lemma PositionsAfterSale(lots: seq<Lot>, after: seq<Lot>, t: string, n: int)
    requires AllWellFormed(lots) && AllWellFormed(after)
    requires 0 < n <= OpenTotal(lots, t)
    requires OpenTotal(after, t) == OpenTotal(lots, t) - n
    requires forall u :: u != t ==> OpenTotal(after, u) == OpenTotal(lots, u)
    ensures Positions(after)
         == if n == OpenTotal(lots, t) then Positions(lots) - {t}
            else Positions(lots)[t := OpenTotal(lots, t) - n]
  {
    var before, now := Positions(lots), Positions(after);
    assert forall u :: u != t ==> (u in now <==> u in before) && (u in now ==> now[u] == before[u]);
    MapAfterSale(before, now, t, n, OpenTotal(lots, t));
  }

  lemma MapAfterSale(before: map<string, int>, now: map<string, int>, t: string, n: int, total: int)
    requires t in before && before[t] == total && 0 < n <= total
    requires (t in now <==> n < total) && (t in now ==> now[t] == total - n)
    requires forall u :: u != t ==> (u in now <==> u in before) && (u in now ==> now[u] == before[u])
    ensures now == if n == total then before - {t} else before[t := total - n]
  {
  }

  /**
   * Buying `n` shares and then selling `n` shares of the same ticker leaves
   * every position as it was, whichever lots the sale takes.
   */
  lemma BuyThenSellPositions(lots: seq<Lot>, t: string, n: int, buyPrice: real, buyDate: int,
                             sellPrice: real, sellDate: int)
    requires AllWellFormed(lots) && n > 0
    ensures AllWellFormed(lots + [OpenLot(t, n, buyPrice, buyDate)])
    ensures n <= OpenTotal(lots + [OpenLot(t, n, buyPrice, buyDate)], t)
    ensures AllWellFormed(SellLots(lots + [OpenLot(t, n, buyPrice, buyDate)], t, n, sellPrice, sellDate))
    ensures Positions(SellLots(lots + [OpenLot(t, n, buyPrice, buyDate)], t, n, sellPrice, sellDate))
         == Positions(lots)
  {
    var bought := lots + [OpenLot(t, n, buyPrice, buyDate)];
    var held := OpenTotal(lots, t);
    var total := OpenTotal(bought, t);
    assert AllWellFormed(bought) && total == held + n && held >= 0 by {
      BuyPositions(lots, t, n, buyPrice, buyDate);
      OpenTotalAppendOpen(lots, OpenLot(t, n, buyPrice, buyDate), t);
      SelectionsWellFormed(lots, t);
      SelectionsWellFormed(OfTicker(lots, t), t);
      SharesPositive(OpenOf(lots, t));
    }
    var sold := SellLots(bought, t, n, sellPrice, sellDate);
    assert AllWellFormed(sold) by {
      SellWellFormed(bought, t, n, sellPrice, sellDate);
    }
    var before := Positions(lots);
    var mid := Positions(bought);
    var now := Positions(sold);
    assert mid == before[t := total] by {
      BuyPositions(lots, t, n, buyPrice, buyDate);
    }
    assert now == if n == total then mid - {t} else mid[t := total - n] by {
      SellPositions(bought, t, n, sellPrice, sellDate);
    }
    assert (t in before <==> held > 0) && (t in before ==> before[t] == held);
    RestoredPositions(before, mid, now, t, held, n, total);
  }

  lemma RestoredPositions(before: map<string, int>, mid: map<string, int>, now: map<string, int>,
                          t: string, held: int, n: int, total: int)
    requires held >= 0 && n > 0 && total == held + n
    requires (t in before <==> held > 0) && (t in before ==> before[t] == held)
    requires mid == before[t := total]
    requires now == if n == total then mid - {t} else mid[t := total - n]
    ensures now == before
  {
  }
}
