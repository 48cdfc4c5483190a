/** Calendar dates as the program reads them with `java.sql.Date.valueOf`
    and compares them in SQL (`deadline_date < CURDATE()`). */
module Dates {
  import opened Wrappers
  import opened Text

  datatype Date = Date(year: int, month: int, day: int)

  predicate IsLeapYear(y: int) {
    y % 4 == 0 && (y % 100 != 0 || y % 400 == 0)
  }

  function DaysInMonth(y: int, m: int): (n: int)
    requires 1 <= m <= 12
    ensures 28 <= n <= 31
  {
    if m == 2 then (if IsLeapYear(y) then 29 else 28)
    else if m == 4 || m == 6 || m == 9 || m == 11 then 30
    else 31
  }

  /** A day that exists in the calendar. */
  predicate IsCalendarDate(d: Date) {
    1 <= d.month <= 12 && 1 <= d.day <= DaysInMonth(d.year, d.month)
  }

  /** Strictly earlier, as SQL compares DATE values. */
  predicate Before(a: Date, b: Date) {
    a.year < b.year
    || (a.year == b.year && a.month < b.month)
    || (a.year == b.year && a.month == b.month && a.day < b.day)
  }

  /** Two different dates are ordered one way or the other, and never both. */
  lemma BeforeIsStrictTotal(a: Date, b: Date)
    ensures !(Before(a, b) && Before(b, a))
    ensures a != b ==> Before(a, b) || Before(b, a)
  {
  }

  /** The lenient calendar behind `new Date(y - 1900, m - 1, d)`: a day past
      the end of its month rolls over into the next one ("2023-02-30" is the
      2nd of March). */
  function RollOver(y: int, m: int, d: int): (r: Date)
    requires 1 <= m <= 12 && 1 <= d <= 31
    ensures IsCalendarDate(r) && r.year == y
    ensures d <= DaysInMonth(y, m) ==> r == Date(y, m, d)
    ensures d > DaysInMonth(y, m) ==> r == Date(y, m + 1, d - DaysInMonth(y, m))
  {
    if d <= DaysInMonth(y, m) then Date(y, m, d)
    else Date(y, m + 1, d - DaysInMonth(y, m))
  }

  /** `java.sql.Date.valueOf`: split at the first two dashes, four characters
      of year, one or two of month and of day, each read by `parseInt`, the
      month in 1..12 and the day in 1..31. `None` is the
      `IllegalArgumentException`. */
  function ParseDate(s: string): (r: Option<Date>)
    ensures r.Some? ==> IsCalendarDate(r.value) && 0 <= r.value.year <= 9999
    ensures r.Some? ==> 8 <= |s| <= 10
  {
    var first := IndexOf(s, '-', 0);
    var second := IndexOf(s, '-', first + 1);
    if first > 0 && second > 0 && second < |s| - 1 then
      var yyyy := s[..first];
      var mm := s[first + 1..second];
      var dd := s[second + 1..];
      assert '-' !in yyyy;
      ParseFields(yyyy, mm, dd)
    else None
  }

  /** The field checks of `Date.valueOf` once the text is split at its dashes. */
  function ParseFields(yyyy: string, mm: string, dd: string): (r: Option<Date>)
    requires '-' !in yyyy
    ensures r.Some? ==> IsCalendarDate(r.value) && 0 <= r.value.year <= 9999
    ensures r.Some? ==> |yyyy| == 4 && 1 <= |mm| <= 2 && 1 <= |dd| <= 2
  {
    if |yyyy| == 4 && 1 <= |mm| <= 2 && 1 <= |dd| <= 2 then
      match (ParseInt(yyyy), ParseInt(mm), ParseInt(dd))
      case (Some(y), Some(m), Some(d)) =>
        if 1 <= m <= 12 && 1 <= d <= 31 then
          assert 0 <= y by { YearNotNegative(yyyy); }
          assert y <= 9999 by { FourCharsBound(yyyy); }
          Some(RollOver(y, m, d))
        else None
      case _ => None
    else None
  }

  /** A year field holds no dash, so what parses from it is not negative. */
  lemma YearNotNegative(yyyy: string)
    requires '-' !in yyyy
    requires ParseInt(yyyy).Some?
    ensures ParseInt(yyyy).value >= 0
  {
    if yyyy[0] != '+' {
      assert yyyy[0] in yyyy;
    }
  }

  lemma FourCharsBound(yyyy: string)
    requires |yyyy| == 4 && ParseInt(yyyy).Some?
    ensures ParseInt(yyyy).value <= 9999
  {
    if AllDigits(yyyy) {
      DigitsBound(yyyy);
    } else {
      DigitsBound(yyyy[1..]);
    }
  }

  lemma {:induction false} DigitsBound(s: string)
    requires AllDigits(s)
    ensures DigitsValue(s) < Pow10(|s|)
  {
    if |s| > 0 {
      DigitsBound(s[..|s| - 1]);
    }
  }

  /** `Date.toString`: yyyy-mm-dd with zero padding. */
  function FormatDate(d: Date): string
    requires 0 <= d.year <= 9999 && IsCalendarDate(d)
  {
    Pad(d.year, 4) + "-" + Pad(d.month, 2) + "-" + Pad(d.day, 2)
  }

  /** In digits "-" digits "-" digits the two dashes are found where they
      were written, and the three fields come back out. */
  lemma {:induction false} SplitAtDashes(a: string, b: string, c: string)
    requires AllDigits(a) && AllDigits(b) && AllDigits(c)
    ensures var s := a + "-" + b + "-" + c;
      && IndexOf(s, '-', 0) == |a|
      && IndexOf(s, '-', |a| + 1) == |a| + 1 + |b|
      && s[..|a|] == a && s[|a| + 1..|a| + 1 + |b|] == b && s[|a| + 2 + |b|..] == c
  {
    var s := a + "-" + b + "-" + c;
    assert forall i | 0 <= i < |a| :: s[i] == a[i] && IsDigit(a[i]);
    assert s[|a|] == '-';
    assert forall i | |a| + 1 <= i < |a| + 1 + |b| :: s[i] == b[i - |a| - 1] && IsDigit(b[i - |a| - 1]);
    assert s[|a| + 1 + |b|] == '-';
    assert s[..|a|] == a;
    assert s[|a| + 1..|a| + 1 + |b|] == b;
    assert s[|a| + 2 + |b|..] == c;
  }

  /** Every calendar date with a four-digit year reads back from its own
      yyyy-mm-dd text. */
  lemma ParseFormattedDate(d: Date)
    requires 0 <= d.year <= 9999 && IsCalendarDate(d)
    ensures ParseDate(FormatDate(d)) == Some(d)
  {
    var y, m, dd := Pad(d.year, 4), Pad(d.month, 2), Pad(d.day, 2);
    assert Pow10(2) == 100 && Pow10(4) == 10000;
    PadSpellsN(d.year, 4);
    PadSpellsN(d.month, 2);
    PadSpellsN(d.day, 2);
    ParseIntOfDigits(y);
    ParseIntOfDigits(m);
    ParseIntOfDigits(dd);
    SplitAtDashes(y, m, dd);
    assert ParseFields(y, m, dd) == Some(d);
  }
}
