/**
 * The ranking of `_get_new_ranking` in analyzer/finance_analyzer.py: the
 * per-metric tables fetched from the screener (the E/P rank, the E/P value,
 * the ROE rank and the ROE value of each ticker) are joined on the ticker, the
 * summary rank is the sum of the two ranks, the rows are restricted to the
 * whitelist, each ticker kept once, and the rows are ordered by summary rank
 * with rows lacking one last.
 */
module Ranking {
  import opened Wrappers

  /** The four fetched series, each keyed by ticker. */
  datatype Metrics = Metrics(
    epRanks: map<string, int>,
    ep: map<string, real>,
    roeRanks: map<string, int>,
    roe: map<string, real>)

  /** One row of the joined table; `None` is a missing (NaN) cell. */
  datatype RankRow = RankRow(
    ticker: string,
    epRank: Option<int>,
    ep: Option<real>,
    roeRank: Option<int>,
    roe: Option<real>,
    summary: Option<int>)

  function Get<V>(m: map<string, V>, t: string): Option<V>
  {
    if t in m then Some(m[t]) else None
  }

  /** Adding two columns: the sum is missing when either operand is. */
  function AddRanks(a: Option<int>, b: Option<int>): Option<int>
  {
    if a.Some? && b.Some? then Some(a.value + b.value) else None
  }

  /** The tickers of the outer join: those present in at least one series. */
  function JoinKeys(m: Metrics): set<string>
  {
    m.epRanks.Keys + m.ep.Keys + m.roeRanks.Keys + m.roe.Keys
  }

  /** The joined row of ticker `t`. */
  function Row(m: Metrics, t: string): RankRow
  {
    var epRank := Get(m.epRanks, t);
    var roeRank := Get(m.roeRanks, t);
    RankRow(t, epRank, Get(m.ep, t), roeRank, Get(m.roe, t), AddRanks(epRank, roeRank))
  }

  /** The whitelisted tickers present in `keys`, each once, in whitelist order. */
  function Eligible(whitelist: seq<string>, keys: set<string>): seq<string>
  {
    if whitelist == [] then []
    else
      var init := Eligible(whitelist[..|whitelist| - 1], keys);
      var t := whitelist[|whitelist| - 1];
      if t in keys && t !in init then init + [t] else init
  }

  function Rows(m: Metrics, tickers: seq<string>): seq<RankRow>
  {
    if tickers == [] then [] else [Row(m, tickers[0])] + Rows(m, tickers[1..])
  }

  function TickersOf(rows: seq<RankRow>): seq<string>
  {
    if rows == [] then [] else [rows[0].ticker] + TickersOf(rows[1..])
  }

  // ---------------------------------------------------------------------------
  // The order of the ranking

  /** Python's comparison of strings: lexicographic by code point. */
  predicate StrLess(a: string, b: string)
  {
    if a == [] then b != []
    else b != [] && (a[0] < b[0] || (a[0] == b[0] && StrLess(a[1..], b[1..])))
  }

  /** A summary rank sorts before another; missing ranks sort last. */
  predicate SummaryLess(a: Option<int>, b: Option<int>)
  {
    a.Some? && (b.None? || a.value < b.value)
  }

  /**
   * The ranking's order: by summary rank, missing last, and between equal
   * summary ranks by ticker, which is the order in which the deduplication
   * leaves the rows.
   */
  predicate Before(x: RankRow, y: RankRow)
  {
    SummaryLess(x.summary, y.summary) || (x.summary == y.summary && StrLess(x.ticker, y.ticker))
  }

  function Insert(x: RankRow, s: seq<RankRow>): seq<RankRow>
  {
    if s == [] then [x]
    else if Before(s[0], x) then [s[0]] + Insert(x, s[1..])
    else [x] + s
  }

  function SortRows(s: seq<RankRow>): seq<RankRow>
  {
    if s == [] then [] else Insert(s[0], SortRows(s[1..]))
  }

  /** The ranking of the whitelisted tickers. */
  function NewRanking(m: Metrics, whitelist: seq<string>): seq<RankRow>
  {
    SortRows(Rows(m, Eligible(whitelist, JoinKeys(m))))
  }

  predicate Sorted(s: seq<RankRow>)
  {
    |s| < 2 || (Before(s[0], s[1]) && Sorted(s[1..]))
  }

  // ---------------------------------------------------------------------------
  // String order

  lemma {:induction false} StrLessIrreflexive(a: string)
    ensures !StrLess(a, a)
  {
    if a != [] {
      StrLessIrreflexive(a[1..]);
    }
  }

  lemma {:induction false} StrLessTransitive(a: string, b: string, c: string)
    requires StrLess(a, b) && StrLess(b, c)
    ensures StrLess(a, c)
  {
    if a != [] && a[0] == b[0] && b[0] == c[0] {
      StrLessTransitive(a[1..], b[1..], c[1..]);
    }
  }

  lemma {:induction false} StrLessTotal(a: string, b: string)
    requires a != b
    ensures StrLess(a, b) || StrLess(b, a)
  {
    if a != [] && b != [] && a[0] == b[0] {
      assert a == [a[0]] + a[1..] && b == [b[0]] + b[1..];
      StrLessTotal(a[1..], b[1..]);
    }
  }

  lemma BeforeIrreflexive(x: RankRow)
    ensures !Before(x, x)
  {
    StrLessIrreflexive(x.ticker);
  }

  lemma BeforeTransitive(x: RankRow, y: RankRow, z: RankRow)
    requires Before(x, y) && Before(y, z)
    ensures Before(x, z)
  {
    if x.summary == y.summary && y.summary == z.summary {
      StrLessTransitive(x.ticker, y.ticker, z.ticker);
    }
  }

  lemma BeforeTotal(x: RankRow, y: RankRow)
    requires x.ticker != y.ticker
    ensures Before(x, y) || Before(y, x)
  {
    StrLessTotal(x.ticker, y.ticker);
  }

  // ---------------------------------------------------------------------------
  // Sorting

  lemma {:induction false} InsertContents(x: RankRow, s: seq<RankRow>)
    ensures multiset(Insert(x, s)) == multiset(s) + multiset{x}
    ensures |Insert(x, s)| == |s| + 1
  {
    if s != [] && Before(s[0], x) {
      InsertContents(x, s[1..]);
      assert s == [s[0]] + s[1..];
    }
  }

  lemma {:induction false} SortContents(s: seq<RankRow>)
    ensures multiset(SortRows(s)) == multiset(s)
  {
    if s != [] {
      SortContents(s[1..]);
      InsertContents(s[0], SortRows(s[1..]));
      assert s == [s[0]] + s[1..];
    }
  }

  /** Inserting a row whose ticker is new keeps a sorted sequence sorted. */
  lemma {:induction false} InsertSorted(x: RankRow, s: seq<RankRow>)
    requires Sorted(s)
    requires forall i :: 0 <= i < |s| ==> s[i].ticker != x.ticker
    ensures Sorted(Insert(x, s))
    ensures Insert(x, s) != [] && (Insert(x, s)[0] == x || (s != [] && Insert(x, s)[0] == s[0]))
  {
    if s != [] {
      if Before(s[0], x) {
        InsertSorted(x, s[1..]);
      } else {
        BeforeTotal(x, s[0]);
      }
    }
  }

  function TickerSet(s: seq<RankRow>): set<string>
  {
    set i | 0 <= i < |s| :: s[i].ticker
  }

  lemma {:induction false} SortSorted(s: seq<RankRow>)
    requires forall i, j :: 0 <= i < j < |s| ==> s[i].ticker != s[j].ticker
    ensures Sorted(SortRows(s))
  {
    if s != [] {
      var rest := SortRows(s[1..]);
      SortSorted(s[1..]);
      SortContents(s[1..]);
      forall i | 0 <= i < |rest|
        ensures rest[i].ticker != s[0].ticker
      {
        assert rest[i] in multiset(s[1..]);
        var j :| 0 <= j < |s[1..]| && s[1..][j] == rest[i];
        assert s[j + 1] == rest[i];
      }
      InsertSorted(s[0], rest);
    }
  }

  /** A sorted sequence is ordered pairwise, not just neighbour by neighbour. */
  lemma {:induction false} SortedPairwise(s: seq<RankRow>, i: int, j: int)
    requires Sorted(s) && 0 <= i < j < |s|
    ensures Before(s[i], s[j])
    decreases j
  {
    if i + 1 < j {
      SortedPairwise(s, i, j - 1);
      SortedNeighbours(s, j - 1);
      BeforeTransitive(s[i], s[j - 1], s[j]);
    } else {
      SortedNeighbours(s, i);
    }
  }

  lemma {:induction false} SortedNeighbours(s: seq<RankRow>, i: int)
    requires Sorted(s) && 0 <= i < |s| - 1
    ensures Before(s[i], s[i + 1])
    decreases i
  {
    if i > 0 {
      SortedNeighbours(s[1..], i - 1);
    }
  }

  // ---------------------------------------------------------------------------
  // Contents of the ranking

  lemma {:induction false} EligibleMembers(whitelist: seq<string>, keys: set<string>)
    ensures forall t :: t in Eligible(whitelist, keys) <==> t in whitelist && t in keys
    ensures forall i, j :: 0 <= i < j < |Eligible(whitelist, keys)| ==>
      Eligible(whitelist, keys)[i] != Eligible(whitelist, keys)[j]
  {
    if whitelist != [] {
      var init := whitelist[..|whitelist| - 1];
      EligibleMembers(init, keys);
      assert whitelist == init + [whitelist[|whitelist| - 1]];
    }
  }

  lemma {:induction false} RowsMembers(m: Metrics, tickers: seq<string>)
    ensures |Rows(m, tickers)| == |tickers|
    ensures forall i :: 0 <= i < |tickers| ==> Rows(m, tickers)[i] == Row(m, tickers[i])
  {
    if tickers != [] {
      RowsMembers(m, tickers[1..]);
    }
  }

  /** Rows of distinct tickers have distinct tickers. */
  lemma RowsDistinct(m: Metrics, tickers: seq<string>)
    requires forall i, j :: 0 <= i < j < |tickers| ==> tickers[i] != tickers[j]
    ensures forall i, j :: 0 <= i < j < |Rows(m, tickers)| ==> Rows(m, tickers)[i].ticker != Rows(m, tickers)[j].ticker
  {
    RowsMembers(m, tickers);
  }

  /**
   * The ranking holds exactly the joined rows of the whitelisted tickers that
   * appear in at least one series.
   */
  lemma RankingRows(m: Metrics, whitelist: seq<string>, x: RankRow)
    ensures x in NewRanking(m, whitelist) <==>
      x.ticker in whitelist && x.ticker in JoinKeys(m) && x == Row(m, x.ticker)
  {
    var sel := Eligible(whitelist, JoinKeys(m));
    EligibleMembers(whitelist, JoinKeys(m));
    RowsMembers(m, sel);
    SortContents(Rows(m, sel));
    assert x in NewRanking(m, whitelist) <==> x in multiset(Rows(m, sel));
    if x in Rows(m, sel) {
      var i :| 0 <= i < |sel| && Rows(m, sel)[i] == x;
    }
    if x.ticker in sel && x == Row(m, x.ticker) {
      var i :| 0 <= i < |sel| && sel[i] == x.ticker;
      assert Rows(m, sel)[i] == x;
    }
  }

  /**
   * The ranking is strictly ordered: by summary rank, rows without one last,
   * and by ticker between equal ranks; so each ticker appears once.
   */
  lemma RankingSorted(m: Metrics, whitelist: seq<string>)
    ensures Sorted(NewRanking(m, whitelist))
    ensures forall i, j :: 0 <= i < j < |NewRanking(m, whitelist)| ==>
      Before(NewRanking(m, whitelist)[i], NewRanking(m, whitelist)[j])
    ensures forall i, j :: 0 <= i < j < |NewRanking(m, whitelist)| ==>
      NewRanking(m, whitelist)[i].ticker != NewRanking(m, whitelist)[j].ticker
  {
    var sel := Eligible(whitelist, JoinKeys(m));
    EligibleMembers(whitelist, JoinKeys(m));
    RowsDistinct(m, sel);
    SortSorted(Rows(m, sel));
    var r := NewRanking(m, whitelist);
    forall i, j | 0 <= i < j < |r|
      ensures Before(r[i], r[j]) && r[i].ticker != r[j].ticker
    {
      SortedPairwise(r, i, j);
      RankingRows(m, whitelist, r[i]);
      RankingRows(m, whitelist, r[j]);
      BeforeIrreflexive(r[i]);
    }
  }

  /** Summary ranks never decrease along the ranking, and missing ones come last. */
  lemma RankingBySummary(m: Metrics, whitelist: seq<string>, i: int, j: int)
    requires 0 <= i < j < |NewRanking(m, whitelist)|
    ensures var r := NewRanking(m, whitelist);
      r[i].summary.None? ==> r[j].summary.None?
    ensures var r := NewRanking(m, whitelist);
      r[i].summary.Some? && r[j].summary.Some? ==> r[i].summary.value <= r[j].summary.value
  {
    RankingSorted(m, whitelist);
  }

  /**
   * The summary rank of a row is the sum of its two ranks, and is missing
   * exactly when the ticker lacks one of them.
   */
  lemma SummaryRank(m: Metrics, whitelist: seq<string>, x: RankRow)
    requires x in NewRanking(m, whitelist)
    ensures x.summary.Some? <==> x.ticker in m.epRanks && x.ticker in m.roeRanks
    ensures x.summary.Some? ==> x.summary.value == m.epRanks[x.ticker] + m.roeRanks[x.ticker]
    ensures x.epRank == Get(m.epRanks, x.ticker) && x.roeRank == Get(m.roeRanks, x.ticker)
    ensures x.ep == Get(m.ep, x.ticker) && x.roe == Get(m.roe, x.ticker)
  {
    RankingRows(m, whitelist, x);
  }

  lemma {:induction false} TickersOfRows(rows: seq<RankRow>)
    ensures |TickersOf(rows)| == |rows|
    ensures forall i :: 0 <= i < |rows| ==> TickersOf(rows)[i] == rows[i].ticker
  {
    if rows != [] {
      TickersOfRows(rows[1..]);
    }
  }
}
