/**
  The long display form of a date, `MMMM Do YYYY` in English ("January 1st
  2024"), and a reader for that form that shows no two dates share a rendering.
 */
module DisplayDate {
  import opened Wrappers
  import opened Digits
  import opened Dates

  const MonthNames: seq<string> := [
    "January", "February", "March", "April", "May", "June",
    "July", "August", "September", "October", "November", "December"
  ]

  function MonthName(m: nat): string
    requires 1 <= m <= 12
  {
    MonthNames[m - 1]
  }

  /**
    The English ordinal suffix of `n`: "th" when the tens digit is 1,
    otherwise chosen by the last digit.
   */
  function OrdinalSuffix(n: nat): (s: string)
    ensures s in {"st", "nd", "rd", "th"}
  {
    var last := n % 10;
    if (n % 100) / 10 == 1 then "th"
    else if last == 1 then "st"
    else if last == 2 then "nd"
    else if last == 3 then "rd"
    else "th"
  }

  /**
    The `Do` token: the number in decimal without leading zeros, then its
    two-letter ordinal suffix.
   */
  function Ordinal(n: nat): (r: string)
    ensures |r| >= 3
    ensures AllDigits(r[..|r| - 2]) && Value(r[..|r| - 2]) == n
    ensures r[0] == '0' ==> n == 0
    ensures r[|r| - 2..] == OrdinalSuffix(n)
  {
    SuffixLength(n);
    SplitLastTwo(Show(n), OrdinalSuffix(n));
    Show(n) + OrdinalSuffix(n)
  }

  /**
    The date as `MMMM Do YYYY`: the English month name, the day with its
    suffix and the zero-filled year, separated by single spaces. Nothing is
    lost: reading the result gives the date back.
   */
  function Format(d: Date): (r: string)
    requires Valid(d)
    ensures ParseDisplay(r) == Some(d)
  {
    WordsOfParts(d);
    ParseFieldsOfDate(d);
    MonthName(d.month) + " " + Ordinal(d.day) + " " + Fixed(d.year, 4)
  }

  /** What formatting an unparsable date produces. */
  const InvalidDate := "Invalid date"

  /** Formats a front-matter date string read as `DD-MM-YYYY`. */
  function FormatDateString(s: string): (r: string)
    ensures Parse(s).None? <==> r == InvalidDate
  {
    match Parse(s)
    case Some(d) =>
      FormatIsNotInvalidDate(d);
      Format(d)
    case None => InvalidDate
  }

  lemma FormatIsNotInvalidDate(d: Date)
    requires Valid(d)
    ensures Format(d) != InvalidDate
  {
    var y := Fixed(d.year, 4);
    var f := (MonthName(d.month) + " " + Ordinal(d.day) + " ") + y;
    assert f[|f| - 1] == y[3];
    assert IsDigit(y[3]);
    assert InvalidDate[|InvalidDate| - 1] == 'e';
  }

  /** Splits on every space, as `split(" ")` does; always at least one word. */
  function Words(s: string): (w: seq<string>)
    ensures 1 <= |w|
  {
    if |s| == 0 then [""]
    else
      var rest := Words(s[1..]);
      if s[0] == ' ' then [""] + rest
      else [[s[0]] + rest[0]] + rest[1..]
  }

  predicate NoSpace(s: string) {
    forall i :: 0 <= i < |s| ==> s[i] != ' '
  }

  lemma {:induction false} WordsOfWord(a: string)
    requires NoSpace(a)
    ensures Words(a) == [a]
  {
    if |a| > 0 {
      WordsOfWord(a[1..]);
      assert [a[0]] + a[1..] == a;
    }
  }

  lemma {:induction false} WordsJoin(a: string, b: string)
    requires NoSpace(a)
    ensures Words(a + " " + b) == [a] + Words(b)
  {
    if |a| == 0 {
      assert a + " " + b == " " + b;
      assert (" " + b)[1..] == b;
    } else {
      WordsJoin(a[1..], b);
      assert (a + " " + b)[1..] == a[1..] + " " + b;
      assert [a[0]] + a[1..] == a;
    }
  }

  /** The month number whose English name is `w`, searching from month `from`. */
  function MonthNumber(w: string, from: nat := 1): (m: Option<nat>)
    requires 1 <= from <= 13
    ensures m.Some? ==> from <= m.value <= 12 && MonthName(m.value) == w
    decreases 13 - from
  {
    if from == 13 then None
    else if MonthName(from) == w then Some(from)
    else MonthNumber(w, from + 1)
  }

  lemma MonthNamesDistinct()
    ensures forall i, j :: 0 <= i < j < |MonthNames| ==> MonthNames[i] != MonthNames[j]
  {
  }

  lemma {:induction false} MonthNumberOfName(m: nat, from: nat)
    requires 1 <= from <= m <= 12
    ensures MonthNumber(MonthName(m), from) == Some(m)
    decreases m - from
  {
    MonthNamesDistinct();
    if from < m {
      assert MonthNames[from - 1] != MonthNames[m - 1];
      MonthNumberOfName(m, from + 1);
    }
  }

  /**
    Reads the `MMMM Do YYYY` form back: an English month name, a day with
    the suffix its number calls for, and a four-digit year, naming a real day.
    The day is written without leading zeros, as formatting writes it.
   */
  function ParseDisplay(s: string): (r: Option<Date>)
    ensures r.Some? ==> Valid(r.value)
  {
    var w := Words(s);
    if |w| != 3 then None else ParseFields(w[0], w[1], w[2])
  }

  /** The month, `Do` and year words of a display date, read into a date. */
  function ParseFields(month: string, day: string, year: string): (r: Option<Date>)
    ensures r.Some? ==> Valid(r.value)
  {
    if |day| < 3 || |year| != 4 then None
    else
      var digits := day[..|day| - 2];
      var suffix := day[|day| - 2..];
      match MonthNumber(month)
      case None => None
      case Some(m) =>
        if !AllDigits(digits) || !AllDigits(year) || digits != Show(Value(digits)) then None
        else
          var d := Date(Value(digits), m, Value(year));
          if suffix == OrdinalSuffix(d.day) && Valid(d) then Some(d) else None
  }

  lemma DigitsHaveNoSpace(s: string)
    requires AllDigits(s)
    ensures NoSpace(s)
  {
  }

  lemma NoSpaceConcat(a: string, b: string)
    requires NoSpace(a) && NoSpace(b)
    ensures NoSpace(a + b)
  {
  }

  /** Three space-free words joined by single spaces split back into those words. */
  lemma WordsOfThree(a: string, b: string, c: string)
    requires NoSpace(a) && NoSpace(b) && NoSpace(c)
    ensures Words(a + " " + b + " " + c) == [a, b, c]
  {
    assert a + " " + b + " " + c == a + " " + (b + " " + c);
    WordsJoin(a, b + " " + c);
    WordsJoin(b, c);
    WordsOfWord(c);
  }

  lemma SuffixHasNoSpace(n: nat)
    ensures NoSpace(OrdinalSuffix(n))
  {
  }

  lemma ShowHasNoSpace(n: nat)
    ensures NoSpace(Show(n))
  {
    DigitsHaveNoSpace(Show(n));
  }

  lemma OrdinalHasNoSpace(n: nat)
    ensures NoSpace(Ordinal(n))
  {
    ShowHasNoSpace(n);
    SuffixHasNoSpace(n);
    NoSpaceConcat(Show(n), OrdinalSuffix(n));
  }

  lemma MonthNameHasNoSpace(m: nat)
    requires 1 <= m <= 12
    ensures NoSpace(MonthName(m))
  {
    assert MonthName(m) in MonthNames;
  }

  /** The month, day and year words of a date joined by spaces split back into those words. */
  lemma WordsOfParts(d: Date)
    requires Valid(d)
    ensures Words(MonthName(d.month) + " " + Ordinal(d.day) + " " + Fixed(d.year, 4))
      == [MonthName(d.month), Ordinal(d.day), Fixed(d.year, 4)]
  {
    MonthNameHasNoSpace(d.month);
    OrdinalHasNoSpace(d.day);
    DigitsHaveNoSpace(Fixed(d.year, 4));
    WordsOfThree(MonthName(d.month), Ordinal(d.day), Fixed(d.year, 4));
  }

  /** A display date is three words: the month name, the day with its suffix, the four-digit year. */
  lemma WordsOfFormat(d: Date)
    requires Valid(d)
    ensures Words(Format(d)) == [MonthName(d.month), Ordinal(d.day), Fixed(d.year, 4)]
  {
    WordsOfParts(d);
  }

  lemma OrdinalParts(n: nat)
    ensures |Ordinal(n)| >= 3
    ensures Ordinal(n)[..|Ordinal(n)| - 2] == Show(n)
    ensures Ordinal(n)[|Ordinal(n)| - 2..] == OrdinalSuffix(n)
  {
    SuffixLength(n);
    ShowLength(n);
    SplitLastTwo(Show(n), OrdinalSuffix(n));
  }

  lemma ShowLength(n: nat)
    ensures |Show(n)| >= 1
  {
  }

  lemma SuffixLength(n: nat)
    ensures |OrdinalSuffix(n)| == 2
  {
  }

  lemma SplitLastTwo(a: string, b: string)
    requires |b| == 2
    ensures (a + b)[..|a + b| - 2] == a && (a + b)[|a + b| - 2..] == b
  {
  }

  lemma ParseFieldsOfDate(d: Date)
    requires Valid(d)
    ensures ParseFields(MonthName(d.month), Ordinal(d.day), Fixed(d.year, 4)) == Some(d)
  {
    OrdinalParts(d.day);
    MonthNumberOfName(d.month, 1);
  }

  /** Joins words with single spaces, undoing `Words`. */
  function Unwords(w: seq<string>): string
    requires |w| >= 1
  {
    if |w| == 1 then w[0] else w[0] + " " + Unwords(w[1..])
  }

  lemma {:induction false} UnwordsWords(s: string)
    ensures Unwords(Words(s)) == s
  {
    if |s| > 0 {
      var rest := Words(s[1..]);
      UnwordsWords(s[1..]);
      var w := Words(s);
      assert s == [s[0]] + s[1..];
      if s[0] == ' ' {
        assert w == [""] + rest && w[1..] == rest;
      } else {
        assert w[0] == [s[0]] + rest[0] && w[1..] == rest[1..];
        if |rest| > 1 {
          assert Unwords(rest) == rest[0] + " " + Unwords(rest[1..]);
        }
      }
    }
  }

  /** The words a date is read from are exactly the words formatting writes for it. */
  lemma ParseFieldsOnlyFormat(month: string, day: string, year: string, d: Date)
    requires ParseFields(month, day, year) == Some(d)
    ensures month == MonthName(d.month) && day == Ordinal(d.day) && year == Fixed(d.year, 4)
  {
    var digits := day[..|day| - 2];
    assert day == digits + day[|day| - 2..];
    FixedOfValue(year);
  }

  /** Only the display form of a date reads back as that date. */
  lemma ParseDisplayOnlyFormat(s: string, d: Date)
    requires ParseDisplay(s) == Some(d)
    ensures s == Format(d)
  {
    var w := Words(s);
    UnwordsWords(s);
    ParseFieldsOnlyFormat(w[0], w[1], w[2], d);
    assert |w| == 3;
    assert w[1..][0] == w[1] && w[1..][1..] == [w[2]];
    assert Unwords([w[2]]) == w[2];
    assert Unwords(w[1..]) == w[1] + " " + w[2];
    assert Unwords(w) == w[0] + " " + (w[1] + " " + w[2]);
  }

  /** The reader accepts exactly the display forms of valid dates. */
  lemma ParseDisplayIff(s: string, d: Date)
    ensures ParseDisplay(s) == Some(d) <==> Valid(d) && s == Format(d)
  {
    if ParseDisplay(s) == Some(d) {
      ParseDisplayOnlyFormat(s, d);
    }
  }

  /** Distinct valid dates never share a display string. */
  lemma FormatInjective(a: Date, b: Date)
    requires Valid(a) && Valid(b)
    requires Format(a) == Format(b)
    ensures a == b
  {
  }

  /** The suffix spelled out for every day a month can have. */
  lemma OrdinalSuffixOfDays(n: nat)
    requires 1 <= n <= 31
    ensures OrdinalSuffix(n) ==
      if n in {1, 21, 31} then "st"
      else if n in {2, 22} then "nd"
      else if n in {3, 23} then "rd"
      else "th"
  {
  }

  /** "th" for numbers ending in 11, 12 or 13; otherwise the last digit decides. */
  lemma OrdinalSuffixRule(n: nat)
    ensures OrdinalSuffix(n) ==
      if 11 <= n % 100 <= 13 then "th"
      else if n % 10 == 1 then "st"
      else if n % 10 == 2 then "nd"
      else if n % 10 == 3 then "rd"
      else "th"
  {
    var t := n % 100;
    assert n % 10 == t % 10 by {
      assert n == (n / 100) * 100 + t;
      assert n == ((n / 100) * 10) * 10 + t;
    }
  }
}
