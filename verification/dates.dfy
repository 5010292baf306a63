/**
  Calendar dates in the `DD-MM-YYYY` pattern of an article's front-matter:
  a strict parser, its inverse, and the comparison the catalog sorts by.
 */
module Dates {
  import opened Wrappers
  import opened Digits

  /** A calendar date of the proleptic Gregorian calendar. */
  datatype Date = Date(day: nat, month: nat, year: nat)

  predicate IsLeapYear(y: nat) {
    y % 4 == 0 && (y % 100 != 0 || y % 400 == 0)
  }

  function DaysInMonth(m: nat, y: nat): (n: nat)
    requires 1 <= m <= 12
    ensures 28 <= n <= 31
  {
    if m == 2 then (if IsLeapYear(y) then 29 else 28)
    else if m == 4 || m == 6 || m == 9 || m == 11 then 30
    else 31
  }

  /** A real calendar day whose year fits the four-digit `YYYY` field. */
  predicate Valid(d: Date) {
    && 1 <= d.month <= 12
    && 1 <= d.day <= DaysInMonth(d.month, d.year)
    && d.year < 10000
  }

  /** The date as `DD-MM-YYYY`, each field zero-filled. */
  function Render(d: Date): (s: string)
    requires Valid(d)
    ensures |s| == 10 && s[2] == '-' && s[5] == '-'
  {
    Fixed(d.day, 2) + "-" + Fixed(d.month, 2) + "-" + Fixed(d.year, 4)
  }

  /** The fields of a string shaped `DD-MM-YYYY`, before any calendar check. */
  predicate WellShaped(s: string) {
    && |s| == 10
    && s[2] == '-' && s[5] == '-'
    && AllDigits(s[0..2]) && AllDigits(s[3..5]) && AllDigits(s[6..10])
  }

  /**
    Reads a `DD-MM-YYYY` date strictly: two-digit day, two-digit month and
    four-digit year separated by dashes, naming a day that exists.
   */
  function Parse(s: string): (r: Option<Date>)
    ensures r.Some? ==> Valid(r.value)
  {
    if WellShaped(s) then
      var d := Date(Value(s[0..2]), Value(s[3..5]), Value(s[6..10]));
      if Valid(d) then Some(d) else None
    else None
  }

  /** Parsing succeeds exactly on the renderings of valid dates, and inverts rendering. */
  lemma ParseRenderIff(s: string, d: Date)
    ensures Parse(s) == Some(d) <==> Valid(d) && Render(d) == s
  {
    if Valid(d) && Render(d) == s {
      ParseOfRender(d);
    }
    if Parse(s) == Some(d) {
      RenderOfParse(s);
    }
  }

  lemma ParseOfRender(d: Date)
    requires Valid(d)
    ensures Parse(Render(d)) == Some(d)
  {
    var s := Render(d);
    var dd, mm, yy := Fixed(d.day, 2), Fixed(d.month, 2), Fixed(d.year, 4);
    assert s[0..2] == dd && s[3..5] == mm && s[6..10] == yy;
  }

  lemma RenderOfParse(s: string)
    requires Parse(s).Some?
    ensures Render(Parse(s).value) == s
  {
    var d := Parse(s).value;
    var dd, mm, yy := s[0..2], s[3..5], s[6..10];
    assert WellShaped(s);
    assert d == Date(Value(dd), Value(mm), Value(yy));
    FixedOfValue(dd);
    FixedOfValue(mm);
    FixedOfValue(yy);
    assert |dd| == 2 && |mm| == 2 && |yy| == 4;
    assert Fixed(d.day, 2) == dd && Fixed(d.month, 2) == mm && Fixed(d.year, 4) == yy;
    assert Render(d) == dd + "-" + mm + "-" + yy;
    SplitDashes(s);
  }

  /** A ten-character string with dashes at 2 and 5 is its three fields joined by dashes. */
  lemma SplitDashes(s: string)
    requires |s| == 10 && s[2] == '-' && s[5] == '-'
    ensures s == s[0..2] + "-" + s[3..5] + "-" + s[6..10]
  {
  }

  /** Days from 1 January of year `y` to the first day of month `m` (month 13 closes the year). */
  function DaysBeforeMonth(m: nat, y: nat): nat
    requires 1 <= m <= 13
  {
    if m == 1 then 0 else DaysBeforeMonth(m - 1, y) + DaysInMonth(m - 1, y)
  }

  function YearLength(y: nat): nat {
    if IsLeapYear(y) then 366 else 365
  }

  /** The twelve months together make up the year. */
  lemma MonthsFillYear(y: nat)
    ensures DaysBeforeMonth(13, y) == YearLength(y)
  {
    var feb := DaysInMonth(2, y);
    assert DaysBeforeMonth(2, y) == 31;
    assert DaysBeforeMonth(3, y) == 31 + feb;
    assert DaysBeforeMonth(4, y) == 62 + feb;
    assert DaysBeforeMonth(5, y) == 92 + feb;
    assert DaysBeforeMonth(6, y) == 123 + feb;
    assert DaysBeforeMonth(7, y) == 153 + feb;
    assert DaysBeforeMonth(8, y) == 184 + feb;
    assert DaysBeforeMonth(9, y) == 215 + feb;
    assert DaysBeforeMonth(10, y) == 245 + feb;
    assert DaysBeforeMonth(11, y) == 276 + feb;
    assert DaysBeforeMonth(12, y) == 306 + feb;
    assert DaysBeforeMonth(13, y) == 337 + feb;
  }

  /** Days from 1 January of year 0 to 1 January of year `y`. */
  function DaysBeforeYear(y: nat): nat {
    if y == 0 then 0 else DaysBeforeYear(y - 1) + YearLength(y - 1)
  }

  /** The day's position on a single day count, the timeline a timestamp measures. */
  function DayNumber(d: Date): nat
    requires Valid(d)
  {
    DaysBeforeYear(d.year) + DaysBeforeMonth(d.month, d.year) + d.day - 1
  }

  const MillisPerDay: nat := 86_400_000

  /**
    The signed difference `a - b` in milliseconds between the midnights
    that begin the two days, the value the sort comparator returns: a whole
    number of days, at most zero exactly when `a` is no later than `b`, and
    zero only for the same day.
   */
  function Diff(a: Date, b: Date): (r: int)
    requires Valid(a) && Valid(b)
    ensures r % MillisPerDay == 0
    ensures r <= 0 <==> ChronoLe(a, b)
    ensures r == 0 <==> a == b
  {
    DayNumberOrder(a, b);
    (DayNumber(a) - DayNumber(b)) * MillisPerDay
  }

  /** Chronological order read off the fields: year, then month, then day. */
  predicate ChronoLe(a: Date, b: Date) {
    || a.year < b.year
    || (a.year == b.year && a.month < b.month)
    || (a.year == b.year && a.month == b.month && a.day <= b.day)
  }

  lemma {:induction false} DaysBeforeMonthMonotone(m: nat, m': nat, y: nat)
    requires 1 <= m < m' <= 13
    ensures DaysBeforeMonth(m, y) + DaysInMonth(m, y) <= DaysBeforeMonth(m', y)
  {
    if m' > m + 1 {
      DaysBeforeMonthMonotone(m, m' - 1, y);
    }
  }

  lemma {:induction false} DaysBeforeYearMonotone(y: nat, y': nat)
    requires y <= y'
    ensures DaysBeforeYear(y) <= DaysBeforeYear(y')
  {
    if y < y' {
      DaysBeforeYearMonotone(y, y' - 1);
    }
  }

  /** A date strictly earlier field-wise lies strictly earlier on the day count. */
  lemma DayNumberStrictlyMonotone(a: Date, b: Date)
    requires Valid(a) && Valid(b)
    requires ChronoLe(a, b) && a != b
    ensures DayNumber(a) < DayNumber(b)
  {
    if a.year < b.year {
      DaysBeforeMonthMonotone(a.month, 13, a.year);
      MonthsFillYear(a.year);
      DaysBeforeYearMonotone(a.year + 1, b.year);
    } else if a.month < b.month {
      DaysBeforeMonthMonotone(a.month, b.month, a.year);
    }
  }

  /** The day count orders and tells apart dates exactly as their fields do. */
  lemma DayNumberOrder(a: Date, b: Date)
    requires Valid(a) && Valid(b)
    ensures DayNumber(a) <= DayNumber(b) <==> ChronoLe(a, b)
    ensures DayNumber(a) == DayNumber(b) <==> a == b
  {
    if a != b {
      if ChronoLe(a, b) {
        DayNumberStrictlyMonotone(a, b);
      } else {
        DayNumberStrictlyMonotone(b, a);
      }
    }
  }

  /** Swapping the two dates negates the comparator's difference. */
  lemma DiffAntisymmetric(a: Date, b: Date)
    requires Valid(a) && Valid(b)
    ensures Diff(a, b) == -Diff(b, a)
  {
  }
}
