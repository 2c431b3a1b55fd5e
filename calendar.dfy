/**
 * The part of System.DateTime the engine uses: calendar dates with a time of
 * day, their order, AddMonths, DaysInMonth, and the two ways the engine turns
 * a month into a "MonthName Year" label.
 */
module Calendar {
  import opened Outcomes

  /** 100-nanosecond ticks in one day. */
  const TicksPerDay: int := 864_000_000_000
  const MinYear: int := 1
  const MaxYear: int := 9999

  /** Gregorian leap years. */
  predicate IsLeapYear(year: int) {
    year % 4 == 0 && (year % 100 != 0 || year % 400 == 0)
  }

  /** DateTime.DaysInMonth. */
  function DaysInMonth(year: int, month: int): (n: int)
    requires 1 <= month <= 12
    ensures 28 <= n <= 31
    ensures n == 29 <==> month == 2 && IsLeapYear(year)
  {
    if month == 2 then (if IsLeapYear(year) then 29 else 28)
    else if month == 4 || month == 6 || month == 9 || month == 11 then 30
    else 31
  }

  /** A DateTime: a Gregorian calendar day and the ticks elapsed since its midnight. */
  datatype DateTime = DateTime(year: int, month: int, day: int, timeOfDay: int) {
    predicate Valid() {
      && MinYear <= year <= MaxYear
      && 1 <= month <= 12
      && 1 <= day <= DaysInMonth(year, month)
      && 0 <= timeOfDay < TicksPerDay
    }
  }

  /** The DateTime values that exist: 0001-01-01 through 9999-12-31. */
  type Date = d: DateTime | d.Valid() witness DateTime(1, 1, 1, 0)

  type Month = m: int | 1 <= m <= 12 witness 1

  type Year = y: int | MinYear <= y <= MaxYear witness 1

  /** The position of a date's month on the calendar, counted in months. */
  function MonthIndex(d: DateTime): (i: int)
    ensures 1 <= d.month <= 12 ==> i / 12 == d.year && i % 12 + 1 == d.month
  {
    d.year * 12 + d.month - 1
  }

  /** `a <= b` on DateTime: tick counts compare like (year, month, day, time of day). */
  predicate AtOrBefore(a: DateTime, b: DateTime) {
    || a.year < b.year
    || (a.year == b.year && a.month < b.month)
    || (a.year == b.year && a.month == b.month && a.day < b.day)
    || (a.year == b.year && a.month == b.month && a.day == b.day && a.timeOfDay <= b.timeOfDay)
  }

  /** Days from 0001-01-01 to January 1 of `year`: 365 a year, plus the Gregorian leap days. */
  function DaysBeforeYear(year: int): int
    requires 1 <= year
  {
    var y := year - 1;
    365 * y + y / 4 - y / 100 + y / 400
  }

  /** Days from January 1 to the first day of `month` (13 stands for the next January). */
  function DaysBeforeMonth(year: int, month: int): (n: int)
    requires 1 <= month <= 13
    ensures 0 <= n
  {
    if month == 1 then 0 else DaysBeforeMonth(year, month - 1) + DaysInMonth(year, month - 1)
  }

  /** DateTime.Ticks: 100-nanosecond ticks since 0001-01-01 00:00. */
  function Ticks(d: Date): int {
    (DaysBeforeYear(d.year) + DaysBeforeMonth(d.year, d.month) + d.day - 1) * TicksPerDay + d.timeOfDay
  }

  /** A year has 366 days by its months when it is a leap year, and 365 otherwise. */
  lemma MonthsOfYear(year: int)
    ensures DaysBeforeMonth(year, 13) == if IsLeapYear(year) then 366 else 365
  {
    assert DaysBeforeMonth(year, 13) == DaysBeforeMonth(year, 12) + 31;
    assert DaysBeforeMonth(year, 12) == DaysBeforeMonth(year, 11) + 30;
    assert DaysBeforeMonth(year, 11) == DaysBeforeMonth(year, 10) + 31;
    assert DaysBeforeMonth(year, 10) == DaysBeforeMonth(year, 9) + 30;
    assert DaysBeforeMonth(year, 9) == DaysBeforeMonth(year, 8) + 31;
    assert DaysBeforeMonth(year, 8) == DaysBeforeMonth(year, 7) + 31;
    assert DaysBeforeMonth(year, 7) == DaysBeforeMonth(year, 6) + 30;
    assert DaysBeforeMonth(year, 6) == DaysBeforeMonth(year, 5) + 31;
    assert DaysBeforeMonth(year, 5) == DaysBeforeMonth(year, 4) + 30;
    assert DaysBeforeMonth(year, 4) == DaysBeforeMonth(year, 3) + 31;
    assert DaysBeforeMonth(year, 3) == DaysBeforeMonth(year, 2) + (if IsLeapYear(year) then 29 else 28);
    assert DaysBeforeMonth(year, 2) == 31;
  }

  /**
   * The closed count of leap days agrees with IsLeapYear: the year after
   * `year` starts 366 days later when `year` is a leap year, and 365 later
   * otherwise, which is the year's length by its months.
   */
  lemma YearLength(year: int)
    requires 1 <= year
    ensures DaysBeforeYear(year + 1) == DaysBeforeYear(year) + (if IsLeapYear(year) then 366 else 365)
    ensures DaysBeforeYear(year + 1) == DaysBeforeYear(year) + DaysBeforeMonth(year, 13)
  {
    var y := year - 1;
    assert year / 4 - y / 4 == if year % 4 == 0 then 1 else 0;
    assert year / 100 - y / 100 == if year % 100 == 0 then 1 else 0;
    assert year / 400 - y / 400 == if year % 400 == 0 then 1 else 0;
    MonthsOfYear(year);
  }

  /** A day of a month comes before the first day of every later month of the year. */
  lemma {:induction false} DaysBeforeMonthGrows(year: int, m: int, n: int)
    requires 1 <= m <= 12 && m < n <= 13
    ensures DaysBeforeMonth(year, m) + DaysInMonth(year, m) <= DaysBeforeMonth(year, n)
    decreases n - m
  {
    if m + 1 < n {
      DaysBeforeMonthGrows(year, m + 1, n);
    }
  }

  /** Later years start later. */
  lemma {:induction false} DaysBeforeYearGrows(y1: int, y2: int)
    requires 1 <= y1 < y2
    ensures DaysBeforeYear(y1) + DaysBeforeMonth(y1, 13) <= DaysBeforeYear(y2)
    decreases y2 - y1
  {
    YearLength(y1);
    if y1 + 1 < y2 {
      DaysBeforeYearGrows(y1 + 1, y2);
    }
  }

  /** The day number grows with (year, month, day) in lexicographic order. */
  lemma DayNumberOrder(a: Date, b: Date)
    requires a.year < b.year || (a.year == b.year && a.month < b.month)
          || (a.year == b.year && a.month == b.month && a.day < b.day)
    ensures DaysBeforeYear(a.year) + DaysBeforeMonth(a.year, a.month) + a.day
          < DaysBeforeYear(b.year) + DaysBeforeMonth(b.year, b.month) + b.day
  {
    if a.year < b.year {
      if a.month < 12 {
        DaysBeforeMonthGrows(a.year, a.month, 13);
      }
      DaysBeforeYearGrows(a.year, b.year);
    } else if a.month < b.month {
      DaysBeforeMonthGrows(a.year, a.month, b.month);
    }
  }

  /**
   * DateTime's `<=` compares tick counts; comparing (year, month, day, time
   * of day) in lexicographic order gives the same answer.
   */
  lemma AtOrBeforeTicks(a: Date, b: Date)
    ensures AtOrBefore(a, b) <==> Ticks(a) <= Ticks(b)
  {
    var da := DaysBeforeYear(a.year) + DaysBeforeMonth(a.year, a.month) + a.day - 1;
    var db := DaysBeforeYear(b.year) + DaysBeforeMonth(b.year, b.month) + b.day - 1;
    if a.year < b.year || (a.year == b.year && a.month < b.month) || (a.year == b.year && a.month == b.month && a.day < b.day) {
      DayNumberOrder(a, b);
      assert da * TicksPerDay + TicksPerDay <= db * TicksPerDay;
    } else if b.year < a.year || (a.year == b.year && b.month < a.month) || (a.year == b.year && a.month == b.month && b.day < a.day) {
      DayNumberOrder(b, a);
      assert db * TicksPerDay + TicksPerDay <= da * TicksPerDay;
    }
  }

  function Min(a: int, b: int): int {
    if a < b then a else b
  }

  /** A date is never later than a date of a later month, nor earlier than one of an earlier month. */
  lemma MonthIndexOrder(a: Date, b: Date)
    ensures AtOrBefore(a, b) ==> MonthIndex(a) <= MonthIndex(b)
    ensures MonthIndex(a) < MonthIndex(b) ==> AtOrBefore(a, b)
  {
  }

  /** Two dates of the same month index lie in the same year and month. */
  lemma SameMonthIndex(a: DateTime, b: DateTime)
    requires 1 <= a.month <= 12 && 1 <= b.month <= 12
    requires MonthIndex(a) == MonthIndex(b)
    ensures a.year == b.year && a.month == b.month
  {
  }

  /**
   * DateTime.AddMonths: moves the date by `months` calendar months, keeps the
   * day but clamps it to the length of the target month, and keeps the time
   * of day; fails outside -120000..120000 months or outside the years 1..9999.
   * (Dafny's / and % are Euclidean, which for divisor 12 is what the two
   * branches of the .NET computation give for negative offsets as well.)
   */
  function AddMonths(d: Date, months: int): (r: Result<Date>)
    ensures r.Success? <==>
              -120000 <= months <= 120000 && MinYear * 12 <= MonthIndex(d) + months < (MaxYear + 1) * 12
    ensures r.Failure? ==> r.error == DateOutOfRange
    ensures r.Success? ==>
              && MonthIndex(r.value) == MonthIndex(d) + months
              && r.value.timeOfDay == d.timeOfDay
              && r.value.day == Min(d.day, DaysInMonth(r.value.year, r.value.month))
  {
    if months < -120000 || months > 120000 then Failure(DateOutOfRange)
    else
      var i := d.month - 1 + months;
      var year := d.year + i / 12;
      var month := i % 12 + 1;
      if year < MinYear || year > MaxYear then Failure(DateOutOfRange)
      else
        var length := DaysInMonth(year, month);
        Success(DateTime(year, month, if d.day > length then length else d.day, d.timeOfDay))
  }

  /** Adding zero months gives the date back. */
  lemma AddZeroMonths(d: Date)
    ensures AddMonths(d, 0) == Success(d)
  {
    var r := AddMonths(d, 0);
    SameMonthIndex(r.value, d);
  }

  /** The English month names, as "MMMM" and GetMonthName give them in the invariant culture. */
  const MonthNames: seq<string> := [
    "January", "February", "March", "April", "May", "June",
    "July", "August", "September", "October", "November", "December"]

  function MonthName(m: Month): (name: string)
    ensures ' ' !in name
  {
    MonthNames[m - 1]
  }

  lemma MonthNameInjective(m1: Month, m2: Month)
    requires MonthName(m1) == MonthName(m2)
    ensures m1 == m2
  {
    var n1, n2 := MonthName(m1), MonthName(m2);
    assert |n1| == |n2| && n1[0] == n2[0] && n1[2] == n2[2];
  }

  /** The decimal digit character of `n`. */
  function Digit(n: int): (c: char)
    requires 0 <= n <= 9
    ensures '0' <= c <= '9' && c != ' '
    ensures c == '0' <==> n == 0
  {
    (48 + n) as char
  }

  /** The "yyyy" format: the year as exactly four digits, zero-padded. */
  function FourDigitYear(y: int): (s: string)
    requires 0 <= y <= 9999
    ensures |s| == 4
  {
    [Digit(y / 1000), Digit(y / 100 % 10), Digit(y / 10 % 10), Digit(y % 10)]
  }

  lemma FourDigitYearInjective(y1: int, y2: int)
    requires 0 <= y1 <= 9999 && 0 <= y2 <= 9999
    requires FourDigitYear(y1) == FourDigitYear(y2)
    ensures y1 == y2
  {
    var s1, s2 := FourDigitYear(y1), FourDigitYear(y2);
    assert s1[0] == s2[0] && s1[1] == s2[1] && s1[2] == s2[2] && s1[3] == s2[3];
    assert y1 / 1000 == y2 / 1000 && y1 / 100 % 10 == y2 / 100 % 10;
    assert y1 / 10 % 10 == y2 / 10 % 10 && y1 % 10 == y2 % 10;
    FourDigits(y1);
    FourDigits(y2);
  }

  /** A year below 10000 is determined by its four digits. */
  lemma FourDigits(y: int)
    requires 0 <= y <= 9999
    ensures y == 1000 * (y / 1000) + 100 * (y / 100 % 10) + 10 * (y / 10 % 10) + y % 10
  {
    assert y == 10 * (y / 10) + y % 10;
    assert y / 10 == 10 * (y / 100) + y / 10 % 10;
    assert y / 100 == 10 * (y / 1000) + y / 100 % 10;
  }

  /** int.ToString() for a non-negative number: its decimal digits, without padding. */
  function Decimal(n: nat): (s: string)
    ensures 1 <= |s| && forall i :: 0 <= i < |s| ==> '0' <= s[i] <= '9'
    ensures s[0] == '0' ==> n == 0 && |s| == 1
    decreases n
  {
    if n < 10 then [Digit(n)] else Decimal(n / 10) + [Digit(n % 10)]
  }

  /** Numbers below 1000 print with at most three digits. */
  lemma DecimalLength(n: nat)
    ensures n < 1000 ==> |Decimal(n)| <= 3
  {
    if 10 <= n < 1000 {
      assert Decimal(n) == Decimal(n / 10) + [Digit(n % 10)];
      if n / 10 >= 10 {
        assert Decimal(n / 10) == Decimal(n / 100) + [Digit(n / 10 % 10)];
      }
    }
  }

  /** From the year 1000 on, int.ToString() and "yyyy" print a year alike. */
  lemma DecimalOfFourDigitYear(y: int)
    requires 1000 <= y <= 9999
    ensures Decimal(y) == FourDigitYear(y)
  {
    assert y / 10 / 10 == y / 100 && y / 100 / 10 == y / 1000;
    assert Decimal(y / 1000) == [Digit(y / 1000)];
    assert Decimal(y / 100) == Decimal(y / 1000) + [Digit(y / 100 % 10)];
    assert Decimal(y / 10) == Decimal(y / 100) + [Digit(y / 10 % 10)];
  }

  /** The ToString("MMMM yyyy") label of a month: the row keys of the trend report. */
  function AxisLabel(month: Month, year: Year): (l: string)
    ensures |l| == |MonthName(month)| + 5
    ensures SpaceIndex(l) == |MonthName(month)|
  {
    SpaceIndexAfter(MonthName(month), FourDigitYear(year));
    MonthName(month) + " " + FourDigitYear(year)
  }

  /**
   * GetMonthName(Month) + " " + Year: the key a trend group is looked up
   * under. From the year 1000 on it is the axis label of the same month;
   * below that it is shorter than every axis label of that month.
   */
  function GroupLabel(month: Month, year: Year): (l: string)
    ensures 1000 <= year ==> l == AxisLabel(month, year)
    ensures year < 1000 ==> |l| < |AxisLabel(month, year)|
  {
    DecimalLength(year);
    var l := MonthName(month) + " " + Decimal(year);
    if 1000 <= year then DecimalOfFourDigitYear(year); l else l
  }

  /** The index of the first space in `s`, or |s| if there is none. */
  function SpaceIndex(s: string): nat {
    if s == [] || s[0] == ' ' then 0 else 1 + SpaceIndex(s[1..])
  }

  lemma {:induction false} SpaceIndexAfter(a: string, b: string)
    requires ' ' !in a
    ensures SpaceIndex(a + " " + b) == |a|
  {
    if a == [] {
      assert a + " " + b == " " + b;
    } else {
      assert a[0] in a;
      assert (a + " " + b)[1..] == a[1..] + " " + b;
      SpaceIndexAfter(a[1..], b);
    }
  }

  /** A label "Name Rest" whose name has no space splits back into its two parts. */
  lemma SplitAtSpace(a: string, b: string, c: string, d: string)
    requires ' ' !in a && ' ' !in c
    requires a + " " + b == c + " " + d
    ensures a == c && b == d
  {
    SpaceIndexAfter(a, b);
    SpaceIndexAfter(c, d);
    var s := a + " " + b;
    assert a == s[..|a|] && b == s[|a| + 1..];
    assert c == (c + " " + d)[..|c|] && d == (c + " " + d)[|c| + 1..];
  }

  /** Different months have different axis labels. */
  lemma AxisLabelInjective(m1: Month, y1: Year, m2: Month, y2: Year)
    ensures AxisLabel(m1, y1) == AxisLabel(m2, y2) ==> m1 == m2 && y1 == y2
  {
    if AxisLabel(m1, y1) == AxisLabel(m2, y2) {
      SplitAtSpace(MonthName(m1), FourDigitYear(y1), MonthName(m2), FourDigitYear(y2));
      MonthNameInjective(m1, m2);
      FourDigitYearInjective(y1, y2);
    }
  }

  /**
   * A trend group's key equals an axis label exactly when both name the same
   * month and the year is at least 1000: below that, int.ToString() gives
   * fewer than the four digits "yyyy" gives.
   */
  lemma GroupLabelMatchesAxis(m: Month, y: Year, m': Month, y': Year)
    ensures GroupLabel(m, y) == AxisLabel(m', y') <==> m == m' && y == y' && 1000 <= y
  {
    DecimalLength(y);
    if 1000 <= y {
      DecimalOfFourDigitYear(y);
    }
    if GroupLabel(m, y) == AxisLabel(m', y') {
      SplitAtSpace(MonthName(m), Decimal(y), MonthName(m'), FourDigitYear(y'));
      MonthNameInjective(m, m');
      FourDigitYearInjective(y, y');
    }
  }
}
