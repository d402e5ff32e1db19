/**
 * Candidate selection of analyzer/finance_analyzer.py: analyst estimates are
 * fetched for the top of the ranking (`_get_estimation`), attached to the
 * ranking, stored in the day's ranking file, filtered to undervalued stocks
 * (`_get_candidates`) and narrowed to the best-rated complete rows
 * (`get_best_companies`). The quote service and the cloud store are
 * parameters: `fetch(t, i)` is the outcome of the i-th attempt to get the
 * estimate of ticker `t`, and the store maps file names to saved tables.
 */
module Candidates {
  import opened Wrappers
  import opened Calendar
  import opened Ranking

  /** Analyst rating and price targets of one stock. */
  datatype Estimate = Estimate(rating: real, low: real, current: real, average: real, high: real)

  /** A ranking row with its estimate columns; `None` is a row of missing cells. */
  datatype CandRow = CandRow(rank: RankRow, est: Option<Estimate>)

  type Fetch = (string, nat) -> Option<Estimate>

  /** Attempts made per ticker before its estimate is given up. */
  const Attempts: nat := 5

  /** The first successful answer among attempts `i` to 4, if any. */
  function FirstAnswer(fetch: Fetch, t: string, i: nat): Option<Estimate>
    decreases Attempts - i
  {
    if i >= Attempts then None
    else if fetch(t, i).Some? then fetch(t, i)
    else FirstAnswer(fetch, t, i + 1)
  }

  /** The estimate table: one row per ticker, missing when every attempt failed. */
  function Estimates(tickers: seq<string>, fetch: Fetch): map<string, Option<Estimate>>
  {
    map t | t in tickers :: FirstAnswer(fetch, t, 0)
  }

  /**
   * The estimate of a ticker is missing exactly when all five attempts fail,
   * and otherwise it is the answer of the first attempt that succeeded.
   */
  lemma {:induction false} FirstAnswerIsFirst(fetch: Fetch, t: string, i: nat)
    requires i <= Attempts
    ensures FirstAnswer(fetch, t, i).None? <==> forall j :: i <= j < Attempts ==> fetch(t, j).None?
    ensures FirstAnswer(fetch, t, i).Some? ==>
      exists j :: i <= j < Attempts && FirstAnswer(fetch, t, i) == fetch(t, j)
        && forall k :: i <= k < j ==> fetch(t, k).None?
    decreases Attempts - i
  {
    if i < Attempts && fetch(t, i).None? {
      FirstAnswerIsFirst(fetch, t, i + 1);
      if FirstAnswer(fetch, t, i).Some? {
        var j :| i + 1 <= j < Attempts && FirstAnswer(fetch, t, i + 1) == fetch(t, j)
          && forall k :: i + 1 <= k < j ==> fetch(t, k).None?;
        assert forall k :: i <= k < j ==> fetch(t, k).None?;
      }
    }
  }

  /**
   * Fills the estimate table: every ticker gets a row, and each row holds the
   * first answer of at most five attempts.
   */
  method GetEstimation(tickers: seq<string>, fetch: Fetch) returns (table: map<string, Option<Estimate>>)
    ensures table.Keys == set t | t in tickers
    ensures forall t :: t in table ==> table[t] == FirstAnswer(fetch, t, 0)
  {
    table := map t | t in tickers :: None;
    for n := 0 to |tickers|
      invariant table.Keys == set t | t in tickers
      invariant forall t :: t in table ==> table[t] == if t in tickers[..n] then FirstAnswer(fetch, t, 0) else None
    {
      var t := tickers[n];
      ghost var before := table;
      var i := 0;
      while i < Attempts
        invariant 0 <= i <= Attempts
        invariant FirstAnswer(fetch, t, i) == FirstAnswer(fetch, t, 0)
        invariant table == before
      {
        var answer := fetch(t, i);
        if answer.Some? {
          table := table[t := answer];
          break;
        }
        i := i + 1;
      }
      assert tickers[..n + 1] == tickers[..n] + [t];
    }
    assert tickers[..|tickers|] == tickers;
  }

  /** `ranking.head(n)` of pandas: the first `n` rows, or all but the last `-n` when `n` is negative. */
  function Head<T>(s: seq<T>, n: int): (r: seq<T>)
  {
    if n >= 0 then (if n <= |s| then s[..n] else s)
    else if |s| + n >= 0 then s[..|s| + n] else []
  }

  lemma HeadIsPrefix<T>(s: seq<T>, n: int)
    ensures |Head(s, n)| <= |s| && Head(s, n) == s[..|Head(s, n)|]
    ensures n >= 0 ==> |Head(s, n)| == if n <= |s| then n else |s|
    ensures n < 0 ==> |Head(s, n)| == if |s| + n >= 0 then |s| + n else 0
  {
  }

  /** Joins the ranking with the estimate table on the ticker; tickers without a row get missing cells. */
  function Attach(ranking: seq<RankRow>, table: map<string, Option<Estimate>>): seq<CandRow>
  {
    if ranking == [] then []
    else
      var t := ranking[0].ticker;
      [CandRow(ranking[0], if t in table then table[t] else None)] + Attach(ranking[1..], table)
  }

  /** The table the analyzer builds on a weekday: estimates for the top `4 * k` ranked tickers. */
  function WeekdayTable(ranking: seq<RankRow>, k: int, fetch: Fetch): seq<CandRow>
  {
    Attach(ranking, Estimates(Head(TickersOf(ranking), 4 * k), fetch))
  }

  /** Undervalued: the current price is below the average target (a missing cell compares false). */
  predicate Undervalued(c: CandRow)
  {
    c.est.Some? && c.est.value.current < c.est.value.average
  }

  function Undervalueds(s: seq<CandRow>): seq<CandRow>
  {
    if s == [] then [] else (if Undervalued(s[0]) then [s[0]] else []) + Undervalueds(s[1..])
  }

  /** What `_get_candidates(k)` returns from a table. */
  function CandidatesOf(table: seq<CandRow>, k: int): seq<CandRow>
  {
    Head(Undervalueds(table), k)
  }

  /** `a` appears in `b` in the same order. */
  predicate Subsequence<T(==)>(a: seq<T>, b: seq<T>)
    decreases |b|
  {
    if a == [] then true
    else if b == [] then false
    else if a[0] == b[0] then Subsequence(a[1..], b[1..])
    else Subsequence(a, b[1..])
  }

  // ---------------------------------------------------------------------------
  // Attaching estimates

  lemma {:induction false} AttachRows(ranking: seq<RankRow>, table: map<string, Option<Estimate>>)
    ensures |Attach(ranking, table)| == |ranking|
    ensures forall i :: 0 <= i < |ranking| ==> Attach(ranking, table)[i].rank == ranking[i]
    ensures forall i :: 0 <= i < |ranking| ==>
      Attach(ranking, table)[i].est == (if ranking[i].ticker in table then table[ranking[i].ticker] else None)
  {
    if ranking != [] {
      AttachRows(ranking[1..], table);
    }
  }

  /**
   * Only the tickers of the `4 * k` window get estimates (the first
   * `min(4 * k, |ranking|)` rows when `k` is not negative): each of those rows
   * holds its ticker's first answer, missing when every attempt failed, and
   * every later row of a ranking with distinct tickers has missing estimate
   * cells.
   */
  lemma EstimateWindow(ranking: seq<RankRow>, k: int, fetch: Fetch, i: int)
    requires forall p, q :: 0 <= p < q < |ranking| ==> ranking[p].ticker != ranking[q].ticker
    requires 0 <= i < |ranking|
    ensures |WeekdayTable(ranking, k, fetch)| == |ranking|
    ensures WeekdayTable(ranking, k, fetch)[i].rank == ranking[i]
    ensures var w := |Head(ranking, 4 * k)|;
      i < w ==> WeekdayTable(ranking, k, fetch)[i].est == FirstAnswer(fetch, ranking[i].ticker, 0)
    ensures var w := |Head(ranking, 4 * k)|;
      i >= w ==> WeekdayTable(ranking, k, fetch)[i].est.None?
    ensures k >= 0 ==> |Head(ranking, 4 * k)| == if 4 * k <= |ranking| then 4 * k else |ranking|
  {
    var tickers := TickersOf(ranking);
    var window := Head(tickers, 4 * k);
    TickersOfRows(ranking);
    HeadIsPrefix(tickers, 4 * k);
    HeadIsPrefix(ranking, 4 * k);
    assert |window| == |Head(ranking, 4 * k)|;
    AttachRows(ranking, Estimates(window, fetch));
    if i < |window| {
      assert window[i] == ranking[i].ticker;
    }
  }

  // ---------------------------------------------------------------------------
  // Filtering and the head

  lemma {:induction false} UndervaluedsMembers(s: seq<CandRow>)
    ensures forall i :: 0 <= i < |Undervalueds(s)| ==> Undervalued(Undervalueds(s)[i])
    ensures forall x :: x in Undervalueds(s) <==> x in s && Undervalued(x)
    ensures Subsequence(Undervalueds(s), s)
  {
    if s != [] {
      UndervaluedsMembers(s[1..]);
      var rest := Undervalueds(s[1..]);
      if Undervalued(s[0]) {
        assert Undervalueds(s) == [s[0]] + rest;
        assert ([s[0]] + rest)[1..] == rest;
      } else {
        assert Undervalueds(s) == rest;
        SubsequenceDrop(rest, s);
      }
    }
  }

  lemma SubsequenceDrop<T>(a: seq<T>, b: seq<T>)
    requires b != [] && Subsequence(a, b[1..])
    ensures Subsequence(a, b)
    decreases |b|, 0
  {
    if a != [] && a[0] == b[0] {
      SubsequenceTail(a, b[1..]);
    }
  }

  lemma {:induction false} SubsequenceTail<T>(a: seq<T>, b: seq<T>)
    requires a != [] && Subsequence(a, b)
    ensures Subsequence(a[1..], b)
    decreases |b|, 1
  {
    assert b != [];
    if a[0] == b[0] {
      SubsequenceDrop(a[1..], b);
    } else {
      SubsequenceTail(a, b[1..]);
      SubsequenceDrop(a[1..], b);
    }
  }

  lemma {:induction false} SubsequencePrefix<T>(a: seq<T>, b: seq<T>, n: nat)
    requires Subsequence(a, b) && n <= |a|
    ensures Subsequence(a[..n], b)
    decreases |b|
  {
    if n > 0 {
      assert b != [];
      if a[0] == b[0] {
        SubsequencePrefix(a[1..], b[1..], n - 1);
        assert a[..n][1..] == a[1..][..n - 1];
      } else {
        SubsequencePrefix(a, b[1..], n);
      }
    }
  }

  /**
   * `_get_candidates(k)` gives at most `k` rows (`k` not negative), each
   * undervalued, in the order of the table; and conversely every undervalued
   * row of the table among the first that many undervalued rows is in it.
   */
  lemma CandidatesProperties(table: seq<CandRow>, k: int)
    ensures k >= 0 ==> |CandidatesOf(table, k)| <= k
    ensures forall i :: 0 <= i < |CandidatesOf(table, k)| ==> Undervalued(CandidatesOf(table, k)[i])
    ensures Subsequence(CandidatesOf(table, k), table)
    ensures CandidatesOf(table, k) == Undervalueds(table)[..|CandidatesOf(table, k)|]
    ensures k >= 0 && |Undervalueds(table)| <= k ==> CandidatesOf(table, k) == Undervalueds(table)
  {
    var u := Undervalueds(table);
    UndervaluedsMembers(table);
    HeadIsPrefix(u, k);
    SubsequencePrefix(u, table, |CandidatesOf(table, k)|);
    var c := CandidatesOf(table, k);
    forall i | 0 <= i < |c|
      ensures Undervalued(c[i])
    {
      assert c[i] == u[i];
    }
    assert u[..|u|] == u;
  }

  // ---------------------------------------------------------------------------
  // The pick of the best companies

  /** A row with no missing cell. */
  predicate Complete(c: CandRow)
  {
    c.est.Some? && c.rank.epRank.Some? && c.rank.ep.Some? && c.rank.roeRank.Some?
    && c.rank.roe.Some? && c.rank.summary.Some?
  }

  function Completes(s: seq<CandRow>): seq<CandRow>
  {
    if s == [] then [] else (if Complete(s[0]) then [s[0]] else []) + Completes(s[1..])
  }

  function Rating(c: CandRow): real
  {
    if c.est.Some? then c.est.value.rating else 0.0
  }

  /** Places `x` before the first row rated at least as well. */
  function InsertByRating(x: CandRow, s: seq<CandRow>): seq<CandRow>
  {
    if s == [] || Rating(x) <= Rating(s[0]) then [x] + s
    else [s[0]] + InsertByRating(x, s[1..])
  }

  /** Sorts by rating, ascending; equal ratings keep their order. */
  function SortByRating(s: seq<CandRow>): seq<CandRow>
  {
    if s == [] then [] else InsertByRating(s[0], SortByRating(s[1..]))
  }

  predicate RatingSorted(s: seq<CandRow>)
  {
    forall i, j :: 0 <= i < j < |s| ==> Rating(s[i]) <= Rating(s[j])
  }

  /** What `get_best_companies(n)` returns from the candidates. */
  function BestOf(candidates: seq<CandRow>, n: int): seq<CandRow>
  {
    Head(SortByRating(Completes(candidates)), n)
  }

  lemma {:induction false} CompletesMembers(s: seq<CandRow>)
    ensures forall i :: 0 <= i < |Completes(s)| ==> Complete(Completes(s)[i])
    ensures multiset(Completes(s)) <= multiset(s)
  {
    if s != [] {
      CompletesMembers(s[1..]);
      assert s == [s[0]] + s[1..];
    }
  }

  lemma {:induction false} InsertByRatingContents(x: CandRow, s: seq<CandRow>)
    ensures multiset(InsertByRating(x, s)) == multiset(s) + multiset{x}
    ensures |InsertByRating(x, s)| == |s| + 1
  {
    if s != [] && Rating(x) > Rating(s[0]) {
      InsertByRatingContents(x, s[1..]);
      assert s == [s[0]] + s[1..];
    }
  }

  /** Inserting keeps every rating at least `m` when `x` and `s` have that bound. */
  lemma {:induction false} InsertByRatingBound(x: CandRow, s: seq<CandRow>, m: real)
    requires Rating(x) >= m
    requires forall i :: 0 <= i < |s| ==> Rating(s[i]) >= m
    ensures forall i :: 0 <= i < |InsertByRating(x, s)| ==> Rating(InsertByRating(x, s)[i]) >= m
  {
    InsertByRatingContents(x, s);
    if s != [] && Rating(x) > Rating(s[0]) {
      var tail := InsertByRating(x, s[1..]);
      InsertByRatingBound(x, s[1..], m);
      assert InsertByRating(x, s) == [s[0]] + tail;
    }
  }

  lemma {:induction false} InsertByRatingSorted(x: CandRow, s: seq<CandRow>)
    requires RatingSorted(s)
    ensures RatingSorted(InsertByRating(x, s))
  {
    InsertByRatingContents(x, s);
    if s != [] && Rating(x) > Rating(s[0]) {
      var rest := s[1..];
      InsertByRatingSorted(x, rest);
      InsertByRatingBound(x, rest, Rating(s[0]));
      var r := InsertByRating(x, s);
      var tail := InsertByRating(x, rest);
      assert r == [s[0]] + tail;
      forall i, j | 0 <= i < j < |r|
        ensures Rating(r[i]) <= Rating(r[j])
      {
        assert r[j] == tail[j - 1];
        if i > 0 {
          assert r[i] == tail[i - 1];
        }
      }
    }
  }

  /** The candidates rated `v`, in their order. */
  function RatedAs(s: seq<CandRow>, v: real): seq<CandRow>
  {
    if s == [] then [] else (if Rating(s[0]) == v then [s[0]] else []) + RatedAs(s[1..], v)
  }

  /** Insertion puts `x` in front of every row with its own rating. */
  lemma {:induction false} InsertByRatingStable(x: CandRow, s: seq<CandRow>, v: real)
    ensures RatedAs(InsertByRating(x, s), v) == (if Rating(x) == v then [x] else []) + RatedAs(s, v)
  {
    if s != [] && Rating(x) > Rating(s[0]) {
      var r := InsertByRating(x, s[1..]);
      var rest := RatedAs(s[1..], v);
      InsertByRatingStable(x, s[1..], v);
      assert ([s[0]] + r)[0] == s[0] && ([s[0]] + r)[1..] == r;
      if Rating(s[0]) == v {
        assert RatedAs([s[0]] + r, v) == [s[0]] + ([] + rest);
        assert RatedAs(s, v) == [s[0]] + rest;
      } else {
        assert RatedAs([s[0]] + r, v) == [] + RatedAs(r, v);
        assert RatedAs(s, v) == [] + rest;
      }
    } else {
      assert ([x] + s)[0] == x && ([x] + s)[1..] == s;
    }
  }

  /** The rating sort is stable: candidates with equal ratings keep their order. */
  lemma {:induction false} SortByRatingStable(s: seq<CandRow>, v: real)
    ensures RatedAs(SortByRating(s), v) == RatedAs(s, v)
  {
    if s != [] {
      SortByRatingStable(s[1..], v);
      InsertByRatingStable(s[0], SortByRating(s[1..]), v);
    }
  }

  lemma {:induction false} SortByRatingProperties(s: seq<CandRow>)
    ensures multiset(SortByRating(s)) == multiset(s)
    ensures RatingSorted(SortByRating(s))
  {
    if s != [] {
      SortByRatingProperties(s[1..]);
      InsertByRatingContents(s[0], SortByRating(s[1..]));
      InsertByRatingSorted(s[0], SortByRating(s[1..]));
      assert s == [s[0]] + s[1..];
    }
  }

  /**
   * `get_best_companies(n)` gives at most `n` rows, none with a missing cell,
   * all taken from the candidates, in ascending order of rating.
   */
  lemma BestOfProperties(candidates: seq<CandRow>, n: int)
    ensures n >= 0 ==> |BestOf(candidates, n)| <= n
    ensures forall i :: 0 <= i < |BestOf(candidates, n)| ==> Complete(BestOf(candidates, n)[i])
    ensures multiset(BestOf(candidates, n)) <= multiset(candidates)
    ensures RatingSorted(BestOf(candidates, n))
  {
    var complete := Completes(candidates);
    var sorted := SortByRating(complete);
    var best := BestOf(candidates, n);
    CompletesMembers(candidates);
    SortByRatingProperties(complete);
    HeadIsPrefix(sorted, n);
    assert best == sorted[..|best|];
    assert multiset(best) <= multiset(sorted) by {
      PrefixParts(sorted, |best|);
    }
    CompleteByContents(best, complete);
  }

  /** Rows drawn from complete rows are complete. */
  lemma CompleteByContents(a: seq<CandRow>, b: seq<CandRow>)
    requires multiset(a) <= multiset(b)
    requires forall i :: 0 <= i < |b| ==> Complete(b[i])
    ensures forall i :: 0 <= i < |a| ==> Complete(a[i])
  {
    forall i | 0 <= i < |a|
      ensures Complete(a[i])
    {
      assert a[i] in multiset(b);
      var p :| 0 <= p < |b| && b[p] == a[i];
    }
  }

  lemma PrefixParts<T>(s: seq<T>, m: nat)
    requires m <= |s|
    ensures multiset(s) == multiset(s[..m]) + multiset(s[m..])
  {
    assert s == s[..m] + s[m..];
  }

  /** No complete candidate left out is rated better (lower) than one chosen. */
  lemma BestOfIsBest(candidates: seq<CandRow>, n: int, x: CandRow, i: int)
    requires x in multiset(Completes(candidates)) - multiset(BestOf(candidates, n))
    requires 0 <= i < |BestOf(candidates, n)|
    ensures Rating(BestOf(candidates, n)[i]) <= Rating(x)
  {
    var complete := Completes(candidates);
    var sorted := SortByRating(complete);
    var best := BestOf(candidates, n);
    SortByRatingProperties(complete);
    HeadIsPrefix(sorted, n);
    PrefixParts(sorted, |best|);
    var rest := sorted[|best|..];
    assert best == sorted[..|best|];
    assert x in multiset(rest);
    var p :| 0 <= p < |rest| && rest[p] == x;
    assert sorted[|best| + p] == x && sorted[i] == best[i];
  }

  // ---------------------------------------------------------------------------
  // The analyzer's entry points

  /**
   * `_get_candidates(k)` on day `today`. On a weekday the ranking is built,
   * estimates are fetched for its top `4 * k` tickers and the table is stored
   * under the day's file name; on a weekend the table stored under the name
   * of the Friday before is read back, and there is no result when it is
   * missing. The result is the first `k` undervalued rows.
   */
  method GetCandidates(today: Date, k: int, metrics: Metrics, whitelist: seq<string>, fetch: Fetch,
                       store: map<string, seq<CandRow>>)
    returns (result: Option<seq<CandRow>>, newStore: map<string, seq<CandRow>>)
    requires ValidDate(today)
    ensures var file := Filename(Rollback(today));
      Weekday(today) <= 4 ==>
        newStore == store[file := WeekdayTable(NewRanking(metrics, whitelist), k, fetch)]
        && result == Some(CandidatesOf(newStore[file], k))
    ensures var file := Filename(Rollback(today));
      Weekday(today) > 4 ==>
        newStore == store
        && (result.Some? <==> file in store)
        && (result.Some? ==> result.value == CandidatesOf(store[file], k))
  {
    RollbackIsWeekday(today);
    var day := Rollback(today);
    var file := Filename(day);
    if Weekday(today) <= 4 {
      var ranking := NewRanking(metrics, whitelist);
      var window := Head(TickersOf(ranking), 4 * k);
      var estimation := GetEstimation(window, fetch);
      assert estimation == Estimates(window, fetch);
      var table := Attach(ranking, estimation);
      newStore := store[file := table];
      result := Some(CandidatesOf(table, k));
    } else {
      newStore := store;
      if file in store {
        result := Some(CandidatesOf(store[file], k));
      } else {
        result := None;
      }
    }
  }

  /** `get_best_companies(n)`: the best `n` of the candidates for `6 * n` companies. */
  method GetBestCompanies(today: Date, n: int, metrics: Metrics, whitelist: seq<string>, fetch: Fetch,
                          store: map<string, seq<CandRow>>)
    returns (result: Option<seq<CandRow>>, newStore: map<string, seq<CandRow>>)
    requires ValidDate(today)
    ensures Weekday(today) <= 4 ==>
      newStore == store[Filename(Rollback(today)) := WeekdayTable(NewRanking(metrics, whitelist), 6 * n, fetch)]
      && result == Some(BestOf(CandidatesOf(WeekdayTable(NewRanking(metrics, whitelist), 6 * n, fetch), 6 * n), n))
    ensures var file := Filename(Rollback(today));
      Weekday(today) > 4 ==>
        newStore == store
        && (result.Some? <==> file in store)
        && (result.Some? ==> result.value == BestOf(CandidatesOf(store[file], 6 * n), n))
  {
    var candidates;
    candidates, newStore := GetCandidates(today, 6 * n, metrics, whitelist, fetch, store);
    if candidates.Some? {
      result := Some(BestOf(candidates.value, n));
    } else {
      result := None;
    }
  }
}
