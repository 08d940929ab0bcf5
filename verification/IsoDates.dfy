/** Calendar dates of absences: "YYYY-MM-DD" to a day number and back, by the Gregorian rules
    that Date.UTC and the getUTC methods follow. */
module IsoDates {
  import opened Wrappers

  const MAX_ABSENCE_RANGE_DAYS := 370

  datatype Date = Date(year: int, month: int, day: int)

  // ----- The calendar -----

  predicate IsLeap(y: int) { y % 4 == 0 && (y % 100 != 0 || y % 400 == 0) }

  function DaysInMonth(y: int, m: int): int {
    if m == 2 then (if IsLeap(y) then 29 else 28)
    else if m == 4 || m == 6 || m == 9 || m == 11 then 30
    else 31
  }

  predicate IsReal(d: Date) { 1 <= d.month <= 12 && 1 <= d.day <= DaysInMonth(d.year, d.month) }

  predicate Earlier(a: Date, b: Date) {
    a.year < b.year || (a.year == b.year && (a.month < b.month || (a.month == b.month && a.day < b.day)))
  }

  function Tomorrow(d: Date): Date {
    if d.day < DaysInMonth(d.year, d.month) then d.(day := d.day + 1)
    else if d.month < 12 then Date(d.year, d.month + 1, 1)
    else Date(d.year + 1, 1, 1)
  }

  function DaysInYear(y: int): int { if IsLeap(y) then 366 else 365 }

  // ----- Day numbers -----

  /** Days from 1 January 1970 to 1 January of year y, counted from year 0 on. */
  function YearStart(y: nat): int {
    if y == 0 then -719528 else YearStart(y - 1) + DaysInYear(y - 1)
  }

  /** Days of year y before the first of month m. */
  function MonthStart(y: int, m: int): int
    requires 1 <= m <= 13
    decreases m
  {
    if m == 1 then 0 else MonthStart(y, m - 1) + DaysInMonth(y, m - 1)
  }

  /** The year a year field stands for: 0 to 99 mean 1900 to 1999. */
  function FullYear(year: nat): nat { if year <= 99 then 1900 + year else year }

  /** Days to a day of a month, counted from 0, that may lie in another year. */
  function MonthDay(y: nat, month: int, day: int): int
    requires month >= -1 && y >= 1
  {
    if month == -1 then YearStart(y - 1) + MonthStart(y - 1, 12) + day - 1
    else YearStart(y + month / 12) + MonthStart(y + month / 12, month % 12 + 1) + day - 1
  }

  /** Date.UTC, in days: the month (from 0) and the day may overflow. */
  function UtcDay(year: nat, month: int, day: int): int
    requires month >= -1
  {
    MonthDay(FullYear(year), month, day)
  }

  function YearFrom(n: int, y: nat): (r: nat)
    requires YearStart(y) <= n
    ensures y <= r && YearStart(r) <= n < YearStart(r + 1)
    decreases n - YearStart(y)
  {
    if n < YearStart(y + 1) then y else YearFrom(n, y + 1)
  }

  function MonthFrom(y: int, k: int, m: int): (r: int)
    requires 1 <= m <= 12 && MonthStart(y, m) <= k < MonthStart(y, 13)
    ensures m <= r <= 12 && MonthStart(y, r) <= k < MonthStart(y, r + 1)
    decreases 12 - m
  {
    if k < MonthStart(y, m + 1) then m else MonthFrom(y, k, m + 1)
  }

  /** The getUTC methods, for days from 1 January of year 0 on. */
  function DateOf(n: int): (d: Date)
    requires n >= YearStart(0)
    ensures IsReal(d) && d.year >= 0
  {
    var y := YearFrom(n, 0);
    MonthsFillYear(y);
    var m := MonthFrom(y, n - YearStart(y), 1);
    Date(y, m, n - YearStart(y) - MonthStart(y, m) + 1)
  }

  lemma MonthsFillYear(y: int)
    ensures MonthStart(y, 13) == DaysInYear(y)
  {
    assert MonthStart(y, 3) == 31 + DaysInMonth(y, 2);
    assert MonthStart(y, 7) == MonthStart(y, 3) + 122;
    assert MonthStart(y, 11) == MonthStart(y, 7) + 123;
  }

  // ----- The closed form of the year starts -----

  lemma Quarters(x: int)
    ensures (x + 1) / 4 == x / 4 + if (x + 1) % 4 == 0 then 1 else 0
  {
  }

  lemma Centuries(x: int)
    ensures (x + 1) / 100 == x / 100 + if (x + 1) % 100 == 0 then 1 else 0
  {
  }

  lemma FourCenturies(x: int)
    ensures (x + 1) / 400 == x / 400 + if (x + 1) % 400 == 0 then 1 else 0
  {
  }

  /** The formula by which the language standard numbers the first day of a year. */
  function EcmaYearStart(y: int): int {
    365 * (y - 1970) + (y - 1969) / 4 - (y - 1901) / 100 + (y - 1601) / 400
  }

  lemma Anchor4(z: int)
    ensures (z - 1968) % 4 == z % 4
  {
  }

  lemma Anchor100(z: int)
    ensures (z - 1900) % 100 == z % 100
  {
  }

  lemma Anchor400(z: int)
    ensures (z - 1600) % 400 == z % 400
  {
  }

  lemma Nested(z: int)
    ensures z % 400 == 0 ==> z % 100 == 0
    ensures z % 100 == 0 ==> z % 4 == 0
  {
  }

  lemma EcmaStep(z: int)
    ensures EcmaYearStart(z + 1) == EcmaYearStart(z) + DaysInYear(z)
  {
    Quarters(z - 1969);
    Centuries(z - 1901);
    FourCenturies(z - 1601);
    Anchor4(z);
    Anchor100(z);
    Anchor400(z);
    Nested(z);
  }

  lemma {:induction false} YearStartIsEcma(y: nat)
    ensures YearStart(y) == EcmaYearStart(y)
  {
    if y > 0 {
      YearStartIsEcma(y - 1);
      EcmaStep(y - 1);
    }
  }

  // ----- Dates and day numbers -----

  lemma {:induction false} YearsGrow(a: nat, b: nat)
    requires a <= b
    ensures YearStart(a) + 365 * (b - a) <= YearStart(b)
    decreases b - a
  {
    if a < b {
      YearsGrow(a, b - 1);
    }
  }

  lemma {:induction false} MonthsGrow(y: int, a: int, b: int)
    requires 1 <= a <= b <= 13
    ensures MonthStart(y, a) + 28 * (b - a) <= MonthStart(y, b)
    decreases b - a
  {
    if a < b {
      MonthsGrow(y, a, b - 1);
    }
  }

  function DayInYear(d: Date): int
    requires 1 <= d.month <= 12
  {
    MonthStart(d.year, d.month) + d.day - 1
  }

  function DayOf(d: Date): int
    requires 1 <= d.month <= 12 && d.year >= 0
  {
    YearStart(d.year) + DayInYear(d)
  }

  lemma DayWithinYear(d: Date)
    requires IsReal(d)
    ensures 0 <= DayInYear(d) < DaysInYear(d.year)
    ensures MonthStart(d.year, d.month) <= DayInYear(d) < MonthStart(d.year, d.month + 1)
  {
    MonthsGrow(d.year, 1, d.month);
    MonthsGrow(d.year, d.month + 1, 13);
    MonthsFillYear(d.year);
  }

  lemma YearOfDay(n: int, y: nat, r: nat)
    requires YearStart(y) <= n < YearStart(y + 1) && YearStart(r) <= n < YearStart(r + 1)
    ensures r == y
  {
    if r < y {
      YearsGrow(r + 1, y);
    } else if r > y {
      YearsGrow(y + 1, r);
    }
  }

  lemma MonthOfDay(y: int, k: int, m: int, r: int)
    requires 1 <= m <= 12 && 1 <= r <= 12
    requires MonthStart(y, m) <= k < MonthStart(y, m + 1) && MonthStart(y, r) <= k < MonthStart(y, r + 1)
    ensures r == m
  {
    if r < m {
      MonthsGrow(y, r + 1, m);
    } else if r > m {
      MonthsGrow(y, m + 1, r);
    }
  }

  /** Day numbers and real dates correspond one to one. */
  lemma DateOfDay(d: Date)
    requires IsReal(d) && d.year >= 0
    ensures DayOf(d) >= YearStart(0) && DateOf(DayOf(d)) == d
  {
    DayWithinYear(d);
    YearsGrow(0, d.year);
    YearOfDay(DayOf(d), d.year, YearFrom(DayOf(d), 0));
    MonthsFillYear(d.year);
    MonthOfDay(d.year, DayInYear(d), d.month, MonthFrom(d.year, DayInYear(d), 1));
  }

  lemma DayOrder(a: Date, b: Date)
    requires IsReal(a) && IsReal(b) && a.year >= 0 && b.year >= 0
    ensures Earlier(a, b) ==> DayOf(a) < DayOf(b)
  {
    DayWithinYear(a);
    DayWithinYear(b);
    if a.year < b.year {
      assert YearStart(a.year + 1) == YearStart(a.year) + DaysInYear(a.year);
      YearsGrow(a.year + 1, b.year);
    } else if a.year == b.year && a.month < b.month {
      MonthsGrow(a.year, a.month + 1, b.month);
    }
  }

  // ----- Text -----

  predicate AllDigits(s: string) { forall i :: 0 <= i < |s| ==> IsDigit(s[i]) }

  function Power10(n: nat): (p: nat)
    ensures p >= 1
  {
    if n == 0 then 1 else 10 * Power10(n - 1)
  }

  function Number(s: string): (n: nat)
    requires AllDigits(s)
    ensures n < Power10(|s|)
  {
    if |s| == 0 then 0
    else
      assert ((s[0] - '0') as int) * Power10(|s| - 1) <= 9 * Power10(|s| - 1);
      ((s[0] - '0') as int) * Power10(|s| - 1) + Number(s[1..])
  }

  /** Four digits, a dash, two digits, a dash, two digits. */
  predicate IsIsoShape(s: string) {
    && |s| == 10 && s[4] == '-' && s[7] == '-'
    && AllDigits(s[..4]) && AllDigits(s[5..7]) && AllDigits(s[8..])
  }

  function Fields(s: string): Date
    requires IsIsoShape(s)
  {
    Date(Number(s[..4]), Number(s[5..7]), Number(s[8..]))
  }

  lemma FieldBounds(s: string)
    requires IsIsoShape(s)
    ensures 0 <= Fields(s).year <= 9999 && 0 <= Fields(s).month <= 99 && 0 <= Fields(s).day <= 99
  {
    assert Power10(4) == 10000 && Power10(2) == 100;
  }

  /** The earliest year a date of this year field can fall into. */
  function EarliestYear(year: nat): nat { FullYear(year) - 1 }

  lemma UtcDayInRange(year: nat, month: int, day: int)
    requires -1 <= month <= 98 && 0 <= day
    ensures UtcDay(year, month, day) >= YearStart(EarliestYear(year)) >= YearStart(0)
  {
    YearsGrow(0, EarliestYear(year));
    MonthDayInRange(FullYear(year), month, day);
  }

  lemma MonthDayInRange(y: nat, month: int, day: int)
    requires y >= 1 && -1 <= month <= 98 && 0 <= day
    ensures MonthDay(y, month, day) >= YearStart(y - 1)
  {
    if month == -1 {
      AfterLow(y - 1, y - 1, 12, day);
    } else {
      AfterLow(y - 1, y + month / 12, month % 12 + 1, day);
    }
  }

  lemma AfterLow(low: nat, y: nat, m: int, day: int)
    requires low <= y && 1 <= m <= 12 && day >= 0 && (low < y || m > 1)
    ensures YearStart(y) + MonthStart(y, m) + day - 1 >= YearStart(low)
  {
    YearsGrow(low, y);
    MonthsGrow(y, 1, m);
  }

  function IsoDateToUtcDay(value: string): Option<int> {
    if !IsIsoShape(value) then None
    else
      var d := Fields(value);
      FieldBounds(value);
      UtcDayInRange(d.year, d.month - 1, d.day);
      var n := UtcDay(d.year, d.month - 1, d.day);
      if DateOf(n) != d then None else Some(n)
  }

  // ----- What is accepted -----

  /** Within a calendar year nothing overflows. */
  lemma UtcDayOfReal(d: Date)
    requires IsReal(d) && d.year >= 100
    ensures UtcDay(d.year, d.month - 1, d.day) == DayOf(d)
  {
    assert (d.month - 1) / 12 == 0 && (d.month - 1) % 12 == d.month - 1;
  }

  lemma LateYear(n: int, low: nat)
    requires n >= YearStart(low) && n >= YearStart(0)
    ensures DateOf(n).year >= low
  {
    var y := YearFrom(n, 0);
    if y < low {
      YearsGrow(y + 1, low);
    }
  }

  /** A date survives the way to a day number and back exactly when it is real and its year is
      not one of those that Date.UTC remaps. */
  lemma SurvivesExactlyWhenReal(d: Date)
    requires 0 <= d.year && 0 <= d.month <= 99 && 0 <= d.day
    ensures UtcDay(d.year, d.month - 1, d.day) >= YearStart(0)
    ensures DateOf(UtcDay(d.year, d.month - 1, d.day)) == d <==> IsReal(d) && d.year >= 100
  {
    UtcDayInRange(d.year, d.month - 1, d.day);
    if d.year <= 99 {
      LateYear(UtcDay(d.year, d.month - 1, d.day), EarliestYear(d.year));
    } else if IsReal(d) {
      UtcDayOfReal(d);
      DateOfDay(d);
    }
  }

  /** Main result: exactly the real Gregorian dates of the years 100 to 9999 are accepted, each
      with its own day number; years 0 to 99 are never accepted. */
  lemma AcceptsExactlyRealDates(value: string)
    ensures IsoDateToUtcDay(value).Some? <==>
      IsIsoShape(value) && IsReal(Fields(value)) && Fields(value).year >= 100
    ensures IsoDateToUtcDay(value).Some? ==> IsoDateToUtcDay(value).value == DayOf(Fields(value))
  {
    if IsIsoShape(value) {
      FieldBounds(value);
      SurvivesExactlyWhenReal(Fields(value));
      if IsoDateToUtcDay(value).Some? {
        UtcDayOfReal(Fields(value));
      }
    }
  }

  // ----- In figures -----

  /** Day of the year on which each month starts, as the language standard lists them. */
  lemma {:induction false} MonthTable(y: int, m: int)
    requires 1 <= m <= 12
    ensures MonthStart(y, m) ==
      [0, 31, 59, 90, 120, 151, 181, 212, 243, 273, 304, 334][m - 1] + if m > 2 && IsLeap(y) then 1 else 0
    decreases m
  {
    if m > 1 {
      MonthTable(y, m - 1);
    }
  }

  /** Real dates, in figures. */
  lemma RealMeans(d: Date)
    ensures IsReal(d) <==>
      && 1 <= d.month <= 12 && 1 <= d.day <= 31
      && (d.month in {4, 6, 9, 11} ==> d.day <= 30)
      && (d.month == 2 ==> d.day <= 29)
      && (d.month == 2 && d.day == 29 ==> d.year % 400 == 0 || (d.year % 4 == 0 && d.year % 100 != 0))
  {
    LeapMeans(d.year);
  }

  function Figure(c: char): int { c as int - 48 }

  /** A text has the shape of a date: ten characters, dashes in two places and figures in the others. */
  lemma ShapeMeans(s: string)
    ensures IsIsoShape(s) <==>
      |s| == 10 && s[4] == '-' && s[7] == '-' && forall i :: 0 <= i < 10 && i != 4 && i != 7 ==> s[i] in "0123456789"
  {
    if |s| == 10 {
      assert forall i :: 0 <= i < 4 ==> s[..4][i] == s[i];
      assert forall i :: 0 <= i < 2 ==> s[5..7][i] == s[5 + i] && s[8..][i] == s[8 + i];
      forall i | 0 <= i < 10
        ensures IsDigit(s[i]) <==> s[i] in "0123456789"
      {
        DigitMeans(s[i]);
      }
      FiguresOnly(s);
    }
  }

  lemma FiguresOnly(s: string)
    requires |s| == 10
    ensures AllDigits(s[..4]) && AllDigits(s[5..7]) && AllDigits(s[8..]) <==> forall i :: 0 <= i < 10 && i != 4 && i != 7 ==> IsDigit(s[i])
  {
    assert forall i :: 0 <= i < 4 ==> s[i] == s[..4][i];
    assert forall i :: 5 <= i < 7 ==> s[i] == s[5..7][i - 5];
    assert forall i :: 8 <= i < 10 ==> s[i] == s[8..][i - 8];
  }

  lemma TwoFigures(s: string)
    requires |s| == 2 && AllDigits(s)
    ensures Number(s) == 10 * Figure(s[0]) + Figure(s[1])
  {
    assert Power10(1) == 10 && Number(s[1..]) == Figure(s[1]);
  }

  lemma FourFigures(s: string)
    requires |s| == 4 && AllDigits(s)
    ensures Number(s) == 1000 * Figure(s[0]) + 100 * Figure(s[1]) + 10 * Figure(s[2]) + Figure(s[3])
  {
    assert Power10(3) == 1000 && Power10(2) == 100;
    assert s[1..][1..] == s[2..];
    TwoFigures(s[2..]);
  }

  /** Year, month and day are what the figures say. */
  lemma FieldsMean(s: string)
    requires IsIsoShape(s)
    ensures Fields(s) == Date(1000 * Figure(s[0]) + 100 * Figure(s[1]) + 10 * Figure(s[2]) + Figure(s[3]),
                              10 * Figure(s[5]) + Figure(s[6]), 10 * Figure(s[8]) + Figure(s[9]))
  {
    FourFigures(s[..4]);
    TwoFigures(s[5..7]);
    TwoFigures(s[8..]);
  }

  /** The day of a date by the closed formulas of the language standard; 1 January 1970 is day 0. */
  function EcmaDay(year: int, month: int, day: int): int
    requires 1 <= month <= 12
  {
    365 * (year - 1970) + (year - 1969) / 4 - (year - 1901) / 100 + (year - 1601) / 400
    + [0, 31, 59, 90, 120, 151, 181, 212, 243, 273, 304, 334][month - 1]
    + (if month > 2 && (year % 400 == 0 || (year % 4 == 0 && year % 100 != 0)) then 1 else 0) + day - 1
  }

  lemma EcmaEpoch()
    ensures EcmaDay(1970, 1, 1) == 0 && EcmaDay(2000, 2, 29) == 11016 && EcmaDay(2000, 3, 1) == 11017
  {
  }

  /** Main result: an accepted text has the day number that the closed formulas give its fields. */
  lemma DayNumberIsEcma(value: string, year: int, month: int, day: int)
    requires IsIsoShape(value) && Fields(value) == Date(year, month, day) && IsoDateToUtcDay(value).Some?
    ensures 1 <= month <= 12 && IsoDateToUtcDay(value).value == EcmaDay(year, month, day)
  {
    AcceptsExactlyRealDates(value);
    DayOfIsEcma(year, month, day);
  }

  lemma DayOfIsEcma(year: int, month: int, day: int)
    requires IsReal(Date(year, month, day)) && year >= 0
    ensures DayOf(Date(year, month, day)) == EcmaDay(year, month, day)
  {
    YearStartIsEcma(year);
    MonthTable(year, month);
    LeapMeans(year);
  }

  lemma LeapMeans(y: int)
    ensures IsLeap(y) <==> y % 400 == 0 || (y % 4 == 0 && y % 100 != 0)
  {
    Nested(y);
  }

  lemma MonthAdds(y: int, m: int)
    requires 1 <= m <= 12
    ensures MonthStart(y, m + 1) == MonthStart(y, m) + DaysInMonth(y, m)
  {
  }

  /** Consecutive dates have consecutive numbers. */
  lemma TomorrowIsNext(d: Date)
    requires IsReal(d) && d.year >= 0
    ensures IsReal(Tomorrow(d)) && Tomorrow(d).year >= 0 && DayOf(Tomorrow(d)) == DayOf(d) + 1
  {
    if d.day == DaysInMonth(d.year, d.month) {
      MonthAdds(d.year, d.month);
      if d.month == 12 {
        MonthsFillYear(d.year);
        assert YearStart(d.year + 1) == YearStart(d.year) + DaysInYear(d.year);
        assert MonthStart(d.year + 1, 1) == 0;
      }
    }
  }

  // ----- The order of the texts -----

  lemma Scale(x: nat, y: nat, p: nat)
    requires x < y
    ensures x * p + p <= y * p
  {
    var k: nat := y - x - 1;
    assert y * p == x * p + p + k * p by {
      assert y == x + 1 + k;
    }
  }

  /** Positional notation: the first digit decides, then the rest. */
  lemma FirstDigitDecides(x: nat, y: nat, p: nat, a: nat, b: nat)
    requires a < p && b < p
    ensures x * p + a < y * p + b <==> x < y || (x == y && a < b)
    ensures x * p + a == y * p + b <==> x == y && a == b
  {
    if x < y {
      Scale(x, y, p);
    } else if y < x {
      Scale(y, x, p);
    }
  }

  lemma {:induction false} DigitOrder(a: string, b: string)
    requires AllDigits(a) && AllDigits(b) && |a| == |b|
    ensures Less(a, b) <==> Number(a) < Number(b)
    ensures Number(a) == Number(b) ==> a == b
  {
    if |a| > 0 {
      DigitOrder(a[1..], b[1..]);
      var x, y := (a[0] - '0') as int, (b[0] - '0') as int;
      FirstDigitDecides(x, y, Power10(|a| - 1), Number(a[1..]), Number(b[1..]));
      assert a == [a[0]] + a[1..] && b == [b[0]] + b[1..];
    }
  }

  lemma {:induction false} LessSplits(a: string, b: string, c: string, d: string)
    requires |a| == |b|
    ensures Less(a + c, b + d) <==> Less(a, b) || (a == b && Less(c, d))
  {
    if |a| == 0 {
      assert a + c == c && b + d == d;
    } else {
      assert (a + c)[1..] == a[1..] + c && (b + d)[1..] == b[1..] + d;
      LessSplits(a[1..], b[1..], c, d);
      assert a == [a[0]] + a[1..] && b == [b[0]] + b[1..];
    }
  }

  lemma ShapeParts(s: string)
    requires IsIsoShape(s)
    ensures s == s[..4] + ("-" + (s[5..7] + ("-" + s[8..])))
  {
  }

  lemma TextOrder(s: string, t: string)
    requires IsIsoShape(s) && IsIsoShape(t)
    ensures Less(s, t) <==> Earlier(Fields(s), Fields(t))
    ensures Fields(s) == Fields(t) ==> s == t
  {
    ShapeParts(s);
    ShapeParts(t);
    LessSplits(s[..4], t[..4], "-" + (s[5..7] + ("-" + s[8..])), "-" + (t[5..7] + ("-" + t[8..])));
    LessSplits("-", "-", s[5..7] + ("-" + s[8..]), t[5..7] + ("-" + t[8..]));
    LessSplits(s[5..7], t[5..7], "-" + s[8..], "-" + t[8..]);
    LessSplits("-", "-", s[8..], t[8..]);
    LessIsTotal("-", "-");
    DigitOrder(s[..4], t[..4]);
    DigitOrder(s[5..7], t[5..7]);
    DigitOrder(s[8..], t[8..]);
  }

  /** Main result: on accepted texts the order of the texts is the order of the days. */
  lemma TextOrderIsDayOrder(s: string, t: string)
    requires IsoDateToUtcDay(s).Some? && IsoDateToUtcDay(t).Some?
    ensures Less(s, t) <==> IsoDateToUtcDay(s).value < IsoDateToUtcDay(t).value
    ensures IsoDateToUtcDay(s) == IsoDateToUtcDay(t) <==> s == t
  {
    AcceptsExactlyRealDates(s);
    AcceptsExactlyRealDates(t);
    TextOrder(s, t);
    TextOrder(t, s);
    DayOrder(Fields(s), Fields(t));
    DayOrder(Fields(t), Fields(s));
  }

  // ----- Absence ranges -----

  predicate IsValidAbsenceRange(fromDate: string, toDate: string) {
    var fromDay, toDay := IsoDateToUtcDay(fromDate), IsoDateToUtcDay(toDate);
    fromDay.Some? && toDay.Some? && toDay.value >= fromDay.value
    && toDay.value - fromDay.value + 1 <= MAX_ABSENCE_RANGE_DAYS
  }

  /** `d` and the days after it, `n` of them in all. */
  function Days(d: Date, n: nat): seq<Date>
    decreases n
  {
    if n == 0 then [] else [d] + Days(Tomorrow(d), n - 1)
  }

  lemma {:induction false} DaysCount(d: Date, n: nat)
    requires IsReal(d) && d.year >= 0
    ensures |Days(d, n)| == n
    ensures n > 0 ==> IsReal(Days(d, n)[n - 1]) && Days(d, n)[n - 1].year >= 0 && DayOf(Days(d, n)[n - 1]) == DayOf(d) + n - 1
    decreases n
  {
    if n > 0 {
      TomorrowIsNext(d);
      DaysCount(Tomorrow(d), n - 1);
    }
  }

  /** A valid range is a run of 1 to 370 consecutive calendar days between two accepted dates. */
  lemma RangeCoversDays(fromDate: string, toDate: string)
    requires IsoDateToUtcDay(fromDate).Some? && IsoDateToUtcDay(toDate).Some?
    ensures IsValidAbsenceRange(fromDate, toDate) <==>
      exists n :: 1 <= n <= 370 && |Days(Fields(fromDate), n)| == n
                  && Days(Fields(fromDate), n)[n - 1] == Fields(toDate)
  {
    AcceptsExactlyRealDates(fromDate);
    AcceptsExactlyRealDates(toDate);
    var a, b := Fields(fromDate), Fields(toDate);
    if IsValidAbsenceRange(fromDate, toDate) {
      var n := DayOf(b) - DayOf(a) + 1;
      DaysCount(a, n);
      SameDaySameDate(Days(a, n)[n - 1], b);
    }
    forall n | 1 <= n <= MAX_ABSENCE_RANGE_DAYS && |Days(a, n)| == n && Days(a, n)[n - 1] == b
      ensures DayOf(b) == DayOf(a) + n - 1
    {
      DaysCount(a, n);
    }
  }

  lemma SameDaySameDate(a: Date, b: Date)
    requires IsReal(a) && IsReal(b) && a.year >= 0 && b.year >= 0 && DayOf(a) == DayOf(b)
    ensures a == b
  {
    DayOrder(a, b);
    DayOrder(b, a);
  }
}
