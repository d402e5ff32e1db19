/**
 * Dates as the analyzer of analyzer/finance_analyzer.py uses them: the
 * proleptic Gregorian calendar of Python's `datetime` (day 1 is 1 January of
 * year 1, a Monday; weekdays are numbered from Monday = 0), the rollback of a
 * weekend day to the Friday before it, and the name of the ranking file of a
 * day.
 */
module Calendar {
  import opened Wrappers

  datatype Date = Date(year: int, month: int, day: int)

  predicate IsLeap(y: int)
  {
    y % 4 == 0 && (y % 100 != 0 || y % 400 == 0)
  }

  function DaysInMonth(y: int, m: int): int
    requires 1 <= m <= 12
  {
    if m == 2 then (if IsLeap(y) then 29 else 28)
    else if m == 4 || m == 6 || m == 9 || m == 11 then 30
    else 31
  }

  /** A day Python's `date` accepts: years 1 to 9999 and a day that exists in its month. */
  predicate ValidDate(d: Date)
  {
    1 <= d.year <= 9999 && 1 <= d.month <= 12 && 1 <= d.day <= DaysInMonth(d.year, d.month)
  }

  /** Days in the months of year `y` before month `m`. */
  function DaysBeforeMonth(y: int, m: int): int
    requires 1 <= m <= 12
  {
    if m == 1 then 0 else DaysBeforeMonth(y, m - 1) + DaysInMonth(y, m - 1)
  }

  /** Days in the years before year `y`, leap days included. */
  function DaysBeforeYear(y: int): int
    requires y >= 1
  {
    if y == 1 then 0 else DaysBeforeYear(y - 1) + 365 + (if IsLeap(y - 1) then 1 else 0)
  }

  /** Day number of a date; 1 January of year 1 is day 1. */
  function Ordinal(d: Date): int
    requires ValidDate(d)
  {
    DaysBeforeYear(d.year) + DaysBeforeMonth(d.year, d.month) + d.day
  }

  /** Monday is 0 and Sunday is 6. */
  function Weekday(d: Date): int
    requires ValidDate(d)
  {
    (Ordinal(d) + 6) % 7
  }

  /** The day before `d`. */
  function PrevDay(d: Date): Date
    requires ValidDate(d) && Ordinal(d) > 1
  {
    if d.day > 1 then Date(d.year, d.month, d.day - 1)
    else if d.month > 1 then Date(d.year, d.month - 1, DaysInMonth(d.year, d.month - 1))
    else Date(d.year - 1, 12, 31)
  }

  // ---------------------------------------------------------------------------
  // Day numbers

  lemma DaysBeforeDecember(y: int)
    ensures DaysBeforeMonth(y, 12) == 334 + (if IsLeap(y) then 1 else 0)
  {
    var feb := DaysInMonth(y, 2);
    assert DaysBeforeMonth(y, 2) == 31;
    assert DaysBeforeMonth(y, 3) == 31 + feb;
    assert DaysBeforeMonth(y, 4) == 62 + feb;
    assert DaysBeforeMonth(y, 5) == 92 + feb;
    assert DaysBeforeMonth(y, 6) == 123 + feb;
    assert DaysBeforeMonth(y, 7) == 153 + feb;
    assert DaysBeforeMonth(y, 8) == 184 + feb;
    assert DaysBeforeMonth(y, 9) == 215 + feb;
    assert DaysBeforeMonth(y, 10) == 245 + feb;
    assert DaysBeforeMonth(y, 11) == 276 + feb;
  }

  lemma DaysBeforeMonthPositive(y: int, m: int)
    requires 1 <= m <= 12
    ensures DaysBeforeMonth(y, m) >= m - 1
  {
    if m > 1 {
      DaysBeforeMonthPositive(y, m - 1);
    }
  }

  lemma {:induction false} DaysBeforeYearPositive(y: int)
    requires y >= 1
    ensures DaysBeforeYear(y) >= 365 * (y - 1)
  {
    if y > 1 {
      DaysBeforeYearPositive(y - 1);
    }
  }

  lemma OrdinalPositive(d: Date)
    requires ValidDate(d)
    ensures Ordinal(d) >= 1
    ensures Ordinal(d) == 1 <==> d == Date(1, 1, 1)
  {
    DaysBeforeMonthPositive(d.year, d.month);
    DaysBeforeYearPositive(d.year);
  }

  /** The day before is a valid date one day number earlier. */
  lemma PrevDayOrdinal(d: Date)
    requires ValidDate(d) && Ordinal(d) > 1
    ensures ValidDate(PrevDay(d))
    ensures Ordinal(PrevDay(d)) == Ordinal(d) - 1
  {
    OrdinalPositive(d);
    if d.day == 1 && d.month == 1 {
      DaysBeforeDecember(d.year - 1);
    }
  }

  lemma PrevDayWeekday(d: Date)
    requires ValidDate(d) && Ordinal(d) > 1
    ensures ValidDate(PrevDay(d))
    ensures Weekday(PrevDay(d)) == (Weekday(d) + 6) % 7
  {
    PrevDayOrdinal(d);
  }

  /** Two valid dates with the same day number are the same date. */
  lemma OrdinalInjective(a: Date, b: Date)
    requires ValidDate(a) && ValidDate(b) && Ordinal(a) == Ordinal(b)
    ensures a == b
    decreases Ordinal(a)
  {
    OrdinalPositive(a);
    OrdinalPositive(b);
    if Ordinal(a) > 1 {
      PrevDayOrdinal(a);
      PrevDayOrdinal(b);
      OrdinalInjective(PrevDay(a), PrevDay(b));
      PrevDayInjective(a, b);
    }
  }

  lemma PrevDayInjective(a: Date, b: Date)
    requires ValidDate(a) && ValidDate(b) && Ordinal(a) > 1 && Ordinal(b) > 1
    requires PrevDay(a) == PrevDay(b)
    ensures a == b
  {
  }

  // ---------------------------------------------------------------------------
  // Weekend rollback

  /** The day `n` days before `d`. */
  function DaysBefore(d: Date, n: nat): (r: Date)
    requires ValidDate(d) && Ordinal(d) > n
    ensures ValidDate(r) && Ordinal(r) == Ordinal(d) - n
    decreases n
  {
    if n == 0 then d
    else
      PrevDayOrdinal(d);
      DaysBefore(PrevDay(d), n - 1)
  }

  /** Days the rollback goes back: one from a Saturday, two from a Sunday. */
  function RollbackDays(weekday: int): nat
  {
    (if weekday > 4 then 1 else 0) + (if weekday > 5 then 1 else 0)
  }

  /** The most recent weekday on or before `d`: a weekend day rolls back to its Friday. */
  function Rollback(d: Date): (r: Date)
    requires ValidDate(d)
    ensures ValidDate(r)
  {
    var back := RollbackDays(Weekday(d));
    assert Ordinal(d) > back by {
      OrdinalPositive(d);
    }
    DaysBefore(d, back)
  }

  /**
   * The rollback is a valid weekday: `d` itself on Monday to Friday, one day
   * earlier on Saturday and two days earlier on Sunday.
   */
  lemma RollbackIsWeekday(d: Date)
    requires ValidDate(d)
    ensures ValidDate(Rollback(d))
    ensures Weekday(Rollback(d)) <= 4
    ensures Ordinal(Rollback(d)) == Ordinal(d) - RollbackDays(Weekday(d))
    ensures Weekday(d) <= 4 ==> Rollback(d) == d
    ensures Weekday(d) == 5 ==> Ordinal(Rollback(d)) == Ordinal(d) - 1
    ensures Weekday(d) == 6 ==> Ordinal(Rollback(d)) == Ordinal(d) - 2
  {
    OrdinalPositive(d);
    var w := Weekday(d);
    var back := RollbackDays(w);
    var r := Rollback(d);
    assert r == DaysBefore(d, back);
    ModBack(Ordinal(d) + 6, back);
    assert Weekday(r) == w - back;
  }

  lemma ModBack(a: int, b: int)
    requires 0 <= b <= a % 7
    ensures (a - b) % 7 == a % 7 - b
  {
  }

  /**
   * Nothing between the rollback and `d` is a weekday: the rollback is the
   * latest weekday on or before `d`.
   */
  lemma RollbackIsLatest(d: Date, e: Date)
    requires ValidDate(d) && ValidDate(e)
    requires ValidDate(Rollback(d)) && Ordinal(Rollback(d)) < Ordinal(e) <= Ordinal(d)
    ensures Weekday(e) > 4
  {
    RollbackIsWeekday(d);
  }

  /** Rolling back twice is rolling back once. */
  lemma RollbackIdempotent(d: Date)
    requires ValidDate(d)
    ensures ValidDate(Rollback(d)) && Rollback(Rollback(d)) == Rollback(d)
  {
    RollbackIsWeekday(d);
    RollbackIsWeekday(Rollback(d));
  }

  // ---------------------------------------------------------------------------
  // Ranking file name

  function DigitChar(n: int): char
    requires 0 <= n < 10
  {
    "0123456789"[n]
  }

  predicate IsDigit(c: char)
  {
    '0' <= c <= '9'
  }

  function DigitValue(c: char): int
    requires IsDigit(c)
  {
    c as int - '0' as int
  }

  /** `n` in `width` decimal digits, zero-padded (`n` must fit). */
  function Padded(n: int, width: nat): (r: string)
    requires 0 <= n
    decreases width
  {
    if width == 0 then [] else Padded(n / 10, width - 1) + [DigitChar(n % 10)]
  }

  /** The number a string of decimal digits spells. */
  function DecimalValue(s: string): int
    requires forall i :: 0 <= i < |s| ==> IsDigit(s[i])
  {
    if s == [] then 0 else DecimalValue(s[..|s| - 1]) * 10 + DigitValue(s[|s| - 1])
  }

  function Power10(width: nat): int
  {
    if width == 0 then 1 else 10 * Power10(width - 1)
  }

  /** Reading back a padded number gives the number. */
  lemma {:induction false} PaddedDecimal(n: int, width: nat)
    requires 0 <= n < Power10(width)
    ensures |Padded(n, width)| == width
    ensures forall i :: 0 <= i < width ==> IsDigit(Padded(n, width)[i])
    ensures DecimalValue(Padded(n, width)) == n
  {
    if width > 0 {
      PaddedDecimal(n / 10, width - 1);
      var p := Padded(n, width);
      assert p[..|p| - 1] == Padded(n / 10, width - 1);
    }
  }

  /** Padding the value of a string of digits gives the string back. */
  lemma {:induction false} DecimalPadded(s: string)
    requires forall i :: 0 <= i < |s| ==> IsDigit(s[i])
    ensures 0 <= DecimalValue(s) < Power10(|s|)
    ensures Padded(DecimalValue(s), |s|) == s
  {
    if s != [] {
      var init := s[..|s| - 1];
      assert AllDigits(init);
      DecimalPadded(init);
      var c := s[|s| - 1];
      var v := DecimalValue(init) * 10 + DigitValue(c);
      assert DecimalValue(s) == v;
      assert v / 10 == DecimalValue(init) && v % 10 == DigitValue(c);
      assert DigitChar(DigitValue(c)) == c;
      assert Padded(v, |s|) == init + [c];
      assert s == init + [c];
    }
  }

  const Prefix: string := "ordered_ranks_"
  const Suffix: string := ".csv"

  /** The name of the ranking file of day `d`: `ordered_ranks_YYYY_MM_DD.csv`. */
  function Filename(d: Date): string
    requires ValidDate(d)
  {
    Prefix + Padded(d.year, 4) + "_" + Padded(d.month, 2) + "_" + Padded(d.day, 2) + Suffix
  }

  predicate AllDigits(s: string)
  {
    forall i :: 0 <= i < |s| ==> IsDigit(s[i])
  }

  /** Reads a ranking file name back into its year, month and day. */
  function ParseFilename(s: string): Option<Date>
  {
    if |s| == 28 && s[..14] == Prefix && s[24..] == Suffix && s[18] == '_' && s[21] == '_'
       && AllDigits(s[14..18]) && AllDigits(s[19..21]) && AllDigits(s[22..24])
    then Some(Date(DecimalValue(s[14..18]), DecimalValue(s[19..21]), DecimalValue(s[22..24])))
    else None
  }

  lemma FilenameShape(d: Date)
    requires ValidDate(d)
    ensures var s := Filename(d);
      |s| == 28 && s[..14] == Prefix && s[24..] == Suffix && s[18] == '_' && s[21] == '_'
      && s[14..18] == Padded(d.year, 4) && s[19..21] == Padded(d.month, 2) && s[22..24] == Padded(d.day, 2)
  {
    PaddedDecimal(d.year, 4);
    PaddedDecimal(d.month, 2);
    PaddedDecimal(d.day, 2);
  }

  /** The name of a day's ranking file reads back as that day. */
  lemma ParseFilenameOfFilename(d: Date)
    requires ValidDate(d)
    ensures ParseFilename(Filename(d)) == Some(d)
  {
    FilenameShape(d);
    PaddedDecimal(d.year, 4);
    PaddedDecimal(d.month, 2);
    PaddedDecimal(d.day, 2);
  }

  /** A name that reads back as a day is that day's file name. */
  lemma FilenameOfParseFilename(s: string)
    requires ParseFilename(s).Some? && ValidDate(ParseFilename(s).value)
    ensures Filename(ParseFilename(s).value) == s
  {
    var d := ParseFilename(s).value;
    var f := Filename(d);
    assert s[14..18] == Padded(d.year, 4) by {
      DecimalPadded(s[14..18]);
    }
    assert s[19..21] == Padded(d.month, 2) by {
      DecimalPadded(s[19..21]);
    }
    assert s[22..24] == Padded(d.day, 2) by {
      DecimalPadded(s[22..24]);
    }
    FilenameShape(d);
    SameParts(s, f);
  }

  /** Two names of 28 characters that agree field by field are equal. */
  lemma SameParts(s: string, f: string)
    requires |s| == 28 && |f| == 28
    requires s[..14] == f[..14] && s[14..18] == f[14..18] && s[18] == f[18]
    requires s[19..21] == f[19..21] && s[21] == f[21] && s[22..24] == f[22..24] && s[24..] == f[24..]
    ensures s == f
  {
    forall i | 0 <= i < 28
      ensures s[i] == f[i]
    {
      if i < 14 {
        assert s[..14][i] == f[..14][i];
      } else if i < 18 {
        assert s[14..18][i - 14] == f[14..18][i - 14];
      } else if i == 18 || i == 21 {
      } else if i < 21 {
        assert s[19..21][i - 19] == f[19..21][i - 19];
      } else if i < 24 {
        assert s[22..24][i - 22] == f[22..24][i - 22];
      } else {
        assert s[24..][i - 24] == f[24..][i - 24];
      }
    }
  }

  /** Different days have different ranking files. */
  lemma FilenameInjective(a: Date, b: Date)
    requires ValidDate(a) && ValidDate(b) && Filename(a) == Filename(b)
    ensures a == b
  {
    ParseFilenameOfFilename(a);
    ParseFilenameOfFilename(b);
  }
}
