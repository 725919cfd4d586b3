/** Calendar arithmetic (tclClock.c): Julian Days, Julian and Gregorian dates, ISO 8601 weeks. C's division and
    remainder truncate toward zero and are written out. */
module Calendar {
  import opened Folding

  const JDAY_1_JAN_1_CE_JULIAN := 1721424
  const JDAY_1_JAN_1_CE_GREGORIAN := 1721426
  const FOUR_CENTURIES := 146097
  const ONE_CENTURY_GREGORIAN := 36524
  const FOUR_YEARS := 1461
  const ONE_YEAR := 365

  /** The earliest changeover: 15 October 1582. */
  const PAPAL := 2299161

  function CDiv(a: int, b: int): int
    requires b > 0
  {
    if a >= 0 then a / b else -((-a) / b)
  }

  function CMod(a: int, b: int): int
    requires b > 0
  {
    a - b * CDiv(a, b)
  }

  // ----- the calendars

  /** Year y, 0 being 1 BCE, has a leap day. */
  predicate Leap(gregorian: bool, y: int) {
    y % 4 == 0 && (!gregorian || y % 400 == 0 || y % 100 != 0)
  }

  /** Julian Day of 1 January of year y, counted year by year from 1 CE. */
  function Jan1(gregorian: bool, y: int): int
    decreases if y >= 1 then y - 1 else 1 - y
  {
    if y == 1 then (if gregorian then JDAY_1_JAN_1_CE_GREGORIAN else JDAY_1_JAN_1_CE_JULIAN)
    else if y > 1 then Jan1(gregorian, y - 1) + Days(gregorian, y - 1)
    else Jan1(gregorian, y + 1) - Days(gregorian, y)
  }

  function Days(gregorian: bool, y: int): (n: int)
    ensures n == 365 || n == 366
  {
    if Leap(gregorian, y) then 366 else 365
  }

  /** Days in the months before month m (13 for the whole year). */
  function Prior(leap: bool, m: int): int
    requires 1 <= m <= 13
  {
    [0, 31, 59, 90, 120, 151, 181, 212, 243, 273, 304, 334, 365][m - 1] + if leap && m > 2 then 1 else 0
  }

  /** Julian Day of a date of the given calendar. */
  function DayNumber(gregorian: bool, y: int, m: int, d: int): int
    requires 1 <= m <= 12
  {
    Jan1(gregorian, y) + Prior(Leap(gregorian, y), m) + d - 1
  }

  predicate ValidDate(gregorian: bool, y: int, m: int, d: int) {
    1 <= m <= 12 && 1 <= d <= Prior(Leap(gregorian, y), m + 1) - Prior(Leap(gregorian, y), m)
  }

  lemma Step4(n: int)
    ensures (n + 1) / 4 == n / 4 + if (n + 1) % 4 == 0 then 1 else 0
  {}

  lemma Step100(n: int)
    ensures (n + 1) / 100 == n / 100 + if (n + 1) % 100 == 0 then 1 else 0
  {}

  lemma Step400(n: int)
    ensures (n + 1) / 400 == n / 400 + if (n + 1) % 400 == 0 then 1 else 0
  {}

  lemma Multiples(y: int)
    ensures y % 400 == 0 ==> y % 100 == 0
    ensures y % 100 == 0 ==> y % 4 == 0
  {}

  /** The leap days before year y. */
  function LeapDays(gregorian: bool, y: int): int {
    var n := y - 1;
    if gregorian then n / 4 - n / 100 + n / 400 else n / 4
  }

  lemma OneMore(gregorian: bool, y: int)
    ensures LeapDays(gregorian, y + 1) - LeapDays(gregorian, y) == if Leap(gregorian, y) then 1 else 0
  {
    Step4(y - 1);
    Step100(y - 1);
    Step400(y - 1);
    Multiples(y);
  }

  /** The closed form the source computes with. */
  lemma {:induction false} ClosedForm(gregorian: bool, y: int)
    ensures Jan1(gregorian, y) ==
      (if gregorian then JDAY_1_JAN_1_CE_GREGORIAN else JDAY_1_JAN_1_CE_JULIAN) + 365 * (y - 1) + LeapDays(gregorian, y)
    decreases if y >= 1 then y - 1 else 1 - y
  {
    if y > 1 {
      ClosedForm(gregorian, y - 1);
      OneMore(gregorian, y - 1);
    } else if y < 1 {
      ClosedForm(gregorian, y + 1);
      OneMore(gregorian, y);
    }
  }

  lemma YearLength(gregorian: bool, y: int)
    ensures Jan1(gregorian, y + 1) - Jan1(gregorian, y) == Days(gregorian, y)
  {}

  /** Years counted by cycles of 400, centuries, cycles of 4 and single years. */
  lemma YearParts(a: int, b: int, c: int, d: int)
    requires 0 <= b <= 3 && 0 <= c <= 24 && 0 <= d <= 3
    ensures var y := 400 * a + 100 * b + 4 * c + d + 1;
      Jan1(true, y) == JDAY_1_JAN_1_CE_GREGORIAN + FOUR_CENTURIES * a + ONE_CENTURY_GREGORIAN * b + FOUR_YEARS * c + ONE_YEAR * d
    ensures var y := 400 * a + 100 * b + 4 * c + d + 1; Leap(true, y) <==> d == 3 && (c < 24 || b == 3)
  {
    var n := 400 * a + 100 * b + 4 * c + d;
    assert n / 4 == 100 * a + 25 * b + c;
    assert n / 100 == 4 * a + b;
    assert n / 400 == a;
    Step4(n);
    Step100(n);
    Step400(n);
    ClosedForm(true, n + 1);
  }

  lemma JulianParts(c: int, d: int)
    requires 0 <= d <= 3
    ensures Jan1(false, 4 * c + d + 1) == JDAY_1_JAN_1_CE_JULIAN + FOUR_YEARS * c + ONE_YEAR * d
    ensures Leap(false, 4 * c + d + 1) <==> d == 3
  {
    var n := 4 * c + d;
    assert n / 4 == c;
    Step4(n);
    ClosedForm(false, n + 1);
  }

  lemma {:induction false} YearsApart(gregorian: bool, y: int, z: int)
    requires y <= z
    ensures Jan1(gregorian, z) - Jan1(gregorian, y) >= 365 * (z - y)
    decreases z - y
  {
    if y < z {
      YearsApart(gregorian, y, z - 1);
      YearLength(gregorian, z - 1);
    }
  }

  /** A day is in one year only. */
  lemma OneYear(gregorian: bool, jd: int, y: int, z: int)
    requires Jan1(gregorian, y) <= jd < Jan1(gregorian, y + 1) && Jan1(gregorian, z) <= jd < Jan1(gregorian, z + 1)
    ensures y == z
  {
    if y < z {
      YearsApart(gregorian, y + 1, z);
    } else if z < y {
      YearsApart(gregorian, z + 1, y);
    }
  }

  datatype Era = BCE | CE

  /** The year of an era on one scale. */
  function Astronomical(era: Era, year: int): int {
    if era == BCE then 1 - year else year
  }

  /** The fields of a date, filled in step by step. */
  class DateFields {
    var julianDay: int
    var era: Era
    var gregorian: bool
    var year: int
    var dayOfYear: int
    var month: int
    var dayOfMonth: int
    var iso8601Year: int
    var iso8601Week: int
    var dayOfWeek: int

    constructor () {
      era := CE;
    }

    function Y(): int
      reads this
    {
      Astronomical(era, year)
    }
  }

  /** The source's remainder is 0 when the number divides, whatever its sign. */
  lemma Divides(a: int, b: int)
    requires b in {4, 100, 400}
    ensures CMod(a, b) == 0 <==> a % b == 0
  {
    var q := CDiv(a, b);
    if b == 4 {
      assert CMod(a, 4) == a - 4 * q && -4 < a - 4 * q < 4;
    } else if b == 100 {
      assert CMod(a, 100) == a - 100 * q && -100 < a - 100 * q < 100;
    } else {
      assert CMod(a, 400) == a - 400 * q && -400 < a - 400 * q < 400;
    }
  }

  /** `IsGregorianLeapYear`. */
  method IsGregorianLeapYear(f: DateFields) returns (leap: bool)
    ensures leap == Leap(f.gregorian, f.Y())
  {
    var year := if f.era == BCE then 1 - f.year else f.year;
    Divides(year, 4);
    Divides(year, 100);
    Divides(year, 400);
    if CMod(year, 4) != 0 {
      leap := false;
    } else if !f.gregorian {
      leap := true;
    } else if CMod(year, 400) == 0 {
      leap := true;
    } else if CMod(year, 100) == 0 {
      leap := false;
    } else {
      leap := true;
    }
  }

  /** What a year-of-day computation is to find. */
  predicate InYear(gregorian: bool, jd: int, y: int, doy: int) {
    Jan1(gregorian, y) <= jd < Jan1(gregorian, y + 1) && doy == jd - Jan1(gregorian, y) + 1
  }

  /** Four-year cycles and years: the common end of both calendars. */
  method YearsOfCycle(day0: int) returns (years: int, day: int, ghost c: int, ghost d: int)
    ensures c == day0 / FOUR_YEARS && 0 <= d <= 3 && years == 4 * c + d
    ensures day0 == FOUR_YEARS * c + ONE_YEAR * d + day && 0 <= day && (day < ONE_YEAR || (day == ONE_YEAR && d == 3))
  {
    day := day0;
    var n := CDiv(day, FOUR_YEARS);
    day := CMod(day, FOUR_YEARS);
    if day < 0 {
      day := day + FOUR_YEARS;
      n := n - 1;
    }
    c := day0 / FOUR_YEARS;
    assert n == c;
    years := 4 * n;
    n := CDiv(day, ONE_YEAR);
    day := CMod(day, ONE_YEAR);
    if n > 3 {
      n := 3;
      day := day + 365;
    }
    d := n;
    years := years + n;
  }

  /** Cycles of 400 years and centuries of the Gregorian calendar. */
  method Centuries(jday: int) returns (years: int, day: int, ghost a: int, ghost b: int)
    ensures 0 <= b <= 3 && years == 400 * a + 100 * b
    ensures jday - JDAY_1_JAN_1_CE_GREGORIAN == FOUR_CENTURIES * a + ONE_CENTURY_GREGORIAN * b + day
    ensures 0 <= day && (day < ONE_CENTURY_GREGORIAN || (day == ONE_CENTURY_GREGORIAN && b == 3))
  {
    day := jday - JDAY_1_JAN_1_CE_GREGORIAN;
    var n := CDiv(day, FOUR_CENTURIES);
    day := CMod(day, FOUR_CENTURIES);
    if day < 0 {
      day := day + FOUR_CENTURIES;
      n := n - 1;
    }
    a := n;
    years := 400 * n;
    n := CDiv(day, ONE_CENTURY_GREGORIAN);
    day := CMod(day, ONE_CENTURY_GREGORIAN);
    if n > 3 {
      n := 3;
      day := day + ONE_CENTURY_GREGORIAN;
    }
    b := n;
    years := years + 100 * n;
  }

  lemma GregorianDone(a: int, b: int, c: int, d: int, century: int, day: int, jday: int)
    requires 0 <= b <= 3 && c == century / FOUR_YEARS && 0 <= d <= 3
    requires jday - JDAY_1_JAN_1_CE_GREGORIAN == FOUR_CENTURIES * a + ONE_CENTURY_GREGORIAN * b + century
    requires 0 <= century && (century < ONE_CENTURY_GREGORIAN || (century == ONE_CENTURY_GREGORIAN && b == 3))
    requires century == FOUR_YEARS * c + ONE_YEAR * d + day && 0 <= day && (day < ONE_YEAR || (day == ONE_YEAR && d == 3))
    ensures InYear(true, jday, 400 * a + 100 * b + 4 * c + d + 1, day + 1)
  {
    YearParts(a, b, c, d);
    YearLength(true, 400 * a + 100 * b + 4 * c + d + 1);
  }

  lemma JulianDone(c: int, d: int, day: int, jday: int)
    requires 0 <= d <= 3 && jday - JDAY_1_JAN_1_CE_JULIAN == FOUR_YEARS * c + ONE_YEAR * d + day
    requires 0 <= day && (day < ONE_YEAR || (day == ONE_YEAR && d == 3))
    ensures InYear(false, jday, 4 * c + d + 1, day + 1)
  {
    JulianParts(c, d);
    YearLength(false, 4 * c + d + 1);
  }

  /** `GetGregorianEraYearDay`. */
  method GetGregorianEraYearDay(f: DateFields, changeover: int)
    modifies f`era, f`gregorian, f`year, f`dayOfYear
    ensures f.gregorian == (f.julianDay >= changeover) && f.year >= 1
    ensures InYear(f.gregorian, f.julianDay, f.Y(), f.dayOfYear)
  {
    var jday := f.julianDay;
    var day, year := 0, 1;
    ghost var a, b := 0, 0;
    if jday >= changeover {
      f.gregorian := true;
      var years;
      years, day, a, b := Centuries(jday);
      year := year + years;
    } else {
      f.gregorian := false;
      day := jday - JDAY_1_JAN_1_CE_JULIAN;
    }
    var years, rest, c, d := YearsOfCycle(day);
    if f.gregorian {
      GregorianDone(a, b, c, d, day, rest, jday);
    } else {
      JulianDone(c, d, rest, jday);
    }
    year := year + years;
    if year <= 0 {
      f.era := BCE;
      f.year := 1 - year;
    } else {
      f.era := CE;
      f.year := year;
    }
    f.dayOfYear := rest + 1;
  }

  /** Thirty days have the fourth, sixth, ninth and eleventh month. */
  lemma MonthLengths(leap: bool, m: int)
    requires 1 <= m <= 12
    ensures Prior(leap, 1) == 0
    ensures Prior(leap, m + 1) - Prior(leap, m) ==
      if m == 4 || m == 6 || m == 9 || m == 11 then 30 else if m == 2 then (if leap then 29 else 28) else 31
  {}

  /** Days in month m. */
  function DaysIn(leap: bool, m: int): (n: int)
    requires 1 <= m <= 12
    ensures n == Prior(leap, m + 1) - Prior(leap, m)
    ensures n == if m == 4 || m == 6 || m == 9 || m == 11 then 30 else if m == 2 then (if leap then 29 else 28) else 31
  {
    if leap then [31, 29, 31, 30, 31, 30, 31, 31, 30, 31, 30, 31][m - 1] else [31, 28, 31, 30, 31, 30, 31, 31, 30, 31, 30, 31][m - 1]
  }

  /** `GetMonthDay`. */
  method GetMonthDay(f: DateFields)
    requires 1 <= f.dayOfYear <= 365 + if Leap(f.gregorian, f.Y()) then 1 else 0
    modifies f`month, f`dayOfMonth
    ensures ValidDate(f.gregorian, f.Y(), f.month, f.dayOfMonth)
    ensures f.dayOfYear == Prior(Leap(f.gregorian, f.Y()), f.month) + f.dayOfMonth
  {
    var leap := IsGregorianLeapYear(f);
    var day := f.dayOfYear;
    var month := 0;
    while month < 12 && day > DaysIn(leap, month + 1)
      invariant 0 <= month < 12 && day == f.dayOfYear - Prior(leap, month + 1) && day >= 1
    {
      day := day - DaysIn(leap, month + 1);
      assert month < 11;
      month := month + 1;
    }
    f.month := month + 1;
    f.dayOfMonth := day;
  }

  // ----- dates and days

  /** The day jd is d-m-y of the calendar in force. */
  predicate Dated(jd: int, changeover: int, y: int, m: int, d: int) {
    ValidDate(jd >= changeover, y, m, d) && DayNumber(jd >= changeover, y, m, d) == jd
  }

  lemma {:induction false} MonthStarts(leap: bool, m: int, n: int)
    requires 1 <= m < n <= 13
    ensures Prior(leap, m + 1) <= Prior(leap, n) && 0 <= Prior(leap, m) && Prior(leap, n) <= Prior(leap, 13)
  {}

  lemma InItsYear(jd: int, changeover: int, y: int, m: int, d: int)
    requires Dated(jd, changeover, y, m, d)
    ensures InYear(jd >= changeover, jd, y, Prior(Leap(jd >= changeover, y), m) + d)
  {
    YearLength(jd >= changeover, y);
    MonthStarts(Leap(jd >= changeover, y), m, 13);
  }

  /** A day has one date. */
  lemma OneDate(jd: int, changeover: int, y: int, m: int, d: int, y': int, m': int, d': int)
    requires Dated(jd, changeover, y, m, d) && Dated(jd, changeover, y', m', d')
    ensures y == y' && m == m' && d == d'
  {
    InItsYear(jd, changeover, y, m, d);
    InItsYear(jd, changeover, y', m', d');
    OneYear(jd >= changeover, jd, y, y');
    var leap := Leap(jd >= changeover, y);
    if m < m' {
      MonthStarts(leap, m, m');
    } else if m' < m {
      MonthStarts(leap, m', m);
    }
  }

  /** Day number to date: `GetGregorianEraYearDay` then `GetMonthDay`. */
  method DateOfDay(f: DateFields, changeover: int)
    modifies f`era, f`gregorian, f`year, f`dayOfYear, f`month, f`dayOfMonth
    ensures f.gregorian == (f.julianDay >= changeover) && f.year >= 1
    ensures Dated(f.julianDay, changeover, f.Y(), f.month, f.dayOfMonth)
  {
    GetGregorianEraYearDay(f, changeover);
    YearLength(f.gregorian, f.Y());
    GetMonthDay(f);
  }

  /** A month counted from any year, on the scale of years. */
  function YearOf(y: int, m: int): int {
    y + (m - 1) / 12
  }

  function MonthOf(m: int): (r: int)
    ensures 1 <= r <= 12
  {
    (m - 1) % 12 + 1
  }

  /** The calendar chosen for a date: Gregorian unless that is before the changeover. */
  predicate Chosen(y: int, m: int, d: int, changeover: int) {
    DayNumber(true, YearOf(y, m), MonthOf(m), d) >= changeover
  }

  function DayOfDate(y: int, m: int, d: int, changeover: int): int {
    DayNumber(Chosen(y, m, d, changeover), YearOf(y, m), MonthOf(m), d)
  }

  lemma OwnMonth(y: int, m: int)
    requires 1 <= m <= 12
    ensures YearOf(y, m) == y && MonthOf(m) == m
  {}

  /** The month is month m of k years on. */
  predicate IsMonth(month: int, k: int, m: int) {
    1 <= m <= 12 && month == m + 12 * k
  }

  /** Months carry into years: month m + 12k of a year is month m of the k-th year after it, or before it. */
  lemma MonthsCarry(y: int, m: int, k: int, d: int, changeover: int)
    requires 1 <= m <= 12
    ensures YearOf(y, m + 12 * k) == y + k && MonthOf(m + 12 * k) == m
    ensures Chosen(y, m + 12 * k, d, changeover) == Chosen(y + k, m, d, changeover) == (DayNumber(true, y + k, m, d) >= changeover)
    ensures DayOfDate(y, m + 12 * k, d, changeover) == DayOfDate(y + k, m, d, changeover)
      == if DayNumber(true, y + k, m, d) >= changeover then DayNumber(true, y + k, m, d) else DayNumber(false, y + k, m, d)
  {
    assert (m + 12 * k - 1) / 12 == k && (m + 12 * k - 1) % 12 == m - 1;
    OwnMonth(y + k, m);
  }

  lemma AnyMonth(y: int, month: int, d: int, changeover: int)
    ensures forall k, m | IsMonth(month, k, m) ::
      && YearOf(y, month) == y + k
      && Chosen(y, month, d, changeover) == (DayNumber(true, y + k, m, d) >= changeover)
      && DayOfDate(y, month, d, changeover) == DayNumber(Chosen(y, month, d, changeover), y + k, m, d)
  {
    forall k, m | IsMonth(month, k, m)
      ensures YearOf(y, month) == y + k && MonthOf(month) == m
    {
      MonthsCarry(y, m, k, d, changeover);
    }
  }

  lemma ChosenDay(y: int, m: int, d: int, changeover: int)
    requires 1 <= m <= 12
    ensures Chosen(y, m, d, changeover) == (DayNumber(true, y, m, d) >= changeover)
    ensures DayOfDate(y, m, d, changeover) == DayNumber(Chosen(y, m, d, changeover), y, m, d)
  {
    OwnMonth(y, m);
  }

  /** Truncating division mended to round down. */
  method FloorDiv(a: int, b: int) returns (q: int)
    requires b in {4, 100, 400}
    ensures q == a / b
  {
    q := CDiv(a, b);
    if CMod(a, b) < 0 {
      q := q - 1;
    }
  }

  /** A month reduced to 1..12 and the years carried. */
  method ReduceMonth(m: int) returns (q: int, month: int)
    ensures month == MonthOf(m) && forall y :: YearOf(y, m) == y + q
  {
    var mm1 := m - 1;
    q := CDiv(mm1, 12);
    var r := CMod(mm1, 12);
    if r < 0 {
      r := r + 12;
      q := q - 1;
    }
    month := r + 1;
  }

  lemma CodedDay(y: int, m: int, d: int)
    requires 1 <= m <= 12
    ensures DayNumber(true, y, m, d) == JDAY_1_JAN_1_CE_GREGORIAN - 1 + d + Prior(Leap(true, y), m)
      + ONE_YEAR * (y - 1) + (y - 1) / 4 - (y - 1) / 100 + (y - 1) / 400
    ensures DayNumber(false, y, m, d) == JDAY_1_JAN_1_CE_JULIAN - 1 + d + Prior(Leap(false, y), m) + 365 * (y - 1) + (y - 1) / 4
  {
    ClosedForm(true, y);
    ClosedForm(false, y);
  }

  /** `GetJulianDayFromEraYearMonthDay`. */
  method GetJulianDayFromEraYearMonthDay(f: DateFields, changeover: int)
    modifies f`julianDay, f`era, f`year, f`gregorian
    ensures f.Y() == YearOf(old(f.Y()), f.month) && f.year >= 1
    ensures f.gregorian == Chosen(old(f.Y()), f.month, f.dayOfMonth, changeover)
    ensures f.julianDay == DayOfDate(old(f.Y()), f.month, f.dayOfMonth, changeover)
    ensures forall k, m | IsMonth(f.month, k, m) ::
      && f.Y() == old(f.Y()) + k
      && f.gregorian == (DayNumber(true, old(f.Y()) + k, m, f.dayOfMonth) >= changeover)
      && f.julianDay == DayNumber(f.gregorian, old(f.Y()) + k, m, f.dayOfMonth)
  {
    AnyMonth(f.Y(), f.month, f.dayOfMonth, changeover);
    var year := if f.era == BCE then 1 - f.year else f.year;
    var q, month := ReduceMonth(f.month);
    year := year + q;
    var ym1 := year - 1;
    f.gregorian := true;
    if year < 1 {
      f.era := BCE;
      f.year := 1 - year;
    } else {
      f.era := CE;
      f.year := year;
    }
    var ym1o4 := FloorDiv(ym1, 4);
    var ym1o100 := FloorDiv(ym1, 100);
    var ym1o400 := FloorDiv(ym1, 400);
    var leap := IsGregorianLeapYear(f);
    f.julianDay := JDAY_1_JAN_1_CE_GREGORIAN - 1 + f.dayOfMonth + Prior(leap, month)
      + ONE_YEAR * ym1 + ym1o4 - ym1o100 + ym1o400;
    assert f.julianDay == DayNumber(true, year, month, f.dayOfMonth) by {
      CodedDay(year, month, f.dayOfMonth);
    }
    if f.julianDay < changeover {
      Divides(year, 4);
      f.gregorian := false;
      f.julianDay := JDAY_1_JAN_1_CE_JULIAN - 1 + f.dayOfMonth + Prior(CMod(year, 4) == 0, month) + 365 * ym1 + ym1o4;
      assert f.julianDay == DayNumber(false, year, month, f.dayOfMonth) by {
        CodedDay(year, month, f.dayOfMonth);
      }
    }
  }

  /** The first changeover under which no Julian date is mistaken for a Gregorian one: 29 February 200, a date of the
      Julian calendar alone, is day 1794167 there and would be day 1794168 of the Gregorian calendar. */
  const SAFE := 1794169

  /** Centuries q and cycles r before year y: how far the two calendars are apart when it starts. */
  lemma Apart(y: int, q: int, r: int)
    requires 100 * q < y <= 100 * q + 100 && 400 * r < y <= 400 * r + 400
    ensures y <= 100 ==> q <= r
    ensures y <= 200 ==> q <= r + 1
    ensures y > 200 ==> q >= r + 2
  {}

  lemma Shift(y: int, q: int, r: int)
    requires q == (y - 1) / 100 && r == (y - 1) / 400
    ensures 100 * q < y <= 100 * q + 100 && 400 * r < y <= 400 * r + 400
    ensures Jan1(true, y) - Jan1(false, y) == 2 - q + r
  {
    ClosedForm(true, y);
    ClosedForm(false, y);
  }

  lemma LeapsDiffer(y: int)
    ensures Leap(true, y) ==> Leap(false, y)
    ensures Leap(false, y) && !Leap(true, y) ==> y <= 100 || y >= 200
  {
    Multiples(y);
  }

  /** The arithmetic of a date's two readings, years starting at `a` and `b`. */
  lemma ReadingsApart(y: int, m: int, a: int, b: int, g: bool, j: bool)
    requires 1 <= m <= 12 && (g ==> j) && (j && !g ==> y <= 100 || y >= 200)
    requires (y <= 100 ==> a >= b + 2) && (y <= 200 ==> a >= b + 1) && (y > 200 ==> a <= b)
    ensures y < 200 ==> a + Prior(g, m) > b + Prior(j, m)
    ensures y > 200 ==> a + Prior(g, m) <= b + Prior(j, m)
  {}

  /** A date read as a Gregorian one and as a Julian one: the readings meet on 1 March 200. */
  lemma Readings(y: int, m: int, d: int)
    requires 1 <= m <= 12
    ensures y < 200 ==> DayNumber(true, y, m, d) > DayNumber(false, y, m, d)
    ensures y == 200 ==> DayNumber(true, y, m, d) == DayNumber(false, y, m, d) + if m > 2 then 0 else 1
    ensures y > 200 ==> DayNumber(true, y, m, d) <= DayNumber(false, y, m, d)
  {
    var q, r := (y - 1) / 100, (y - 1) / 400;
    Shift(y, q, r);
    Apart(y, q, r);
    if y == 200 {
      assert q == 1 && r == 0;
    } else {
      LeapsDiffer(y);
      ReadingsApart(y, m, Jan1(true, y), Jan1(false, y), Leap(true, y), Leap(false, y));
    }
  }

  /** The day of the year of a Julian date, also by the shorter count. */
  lemma DayInYear(y: int, m: int, d: int)
    requires ValidDate(false, y, m, d)
    ensures 1 <= Prior(Leap(true, y), m) + d <= Prior(Leap(false, y), m) + d <= if m <= 2 then 60 else 366
  {
    LeapsDiffer(y);
  }

  /** The years before 200 in the one calendar and after it in the other. */
  lemma {:induction false} Around200(y: int)
    ensures y <= 200 ==> Jan1(true, y) <= SAFE - 60 - 365 * (200 - y)
    ensures y >= 200 ==> Jan1(false, y) >= SAFE - 61 + 365 * (y - 200)
    decreases if y <= 200 then 200 - y else y - 200
  {
    if y == 200 {
      ClosedForm(true, y);
      ClosedForm(false, y);
    } else if y < 200 {
      YearLength(true, y);
      Around200(y + 1);
    } else {
      YearLength(false, y - 1);
      Around200(y - 1);
    }
  }

  /** A Julian date before the changeover is before it in the Gregorian reading too. */
  lemma NotMistaken(y: int, m: int, d: int, changeover: int)
    requires changeover >= SAFE
    requires ValidDate(false, y, m, d) && DayNumber(false, y, m, d) < changeover
    ensures DayNumber(true, y, m, d) < changeover
  {
    Readings(y, m, d);
    DayInYear(y, m, d);
    Around200(y);
  }

  /** Up to 29 February 200 every Julian date reads as a later day in the Gregorian calendar. */
  lemma ReadsLater(y: int, m: int, d: int)
    requires ValidDate(false, y, m, d) && DayNumber(false, y, m, d) < SAFE - 1
    ensures DayNumber(true, y, m, d) > DayNumber(false, y, m, d)
  {
    Readings(y, m, d);
    DayInYear(y, m, d);
    Around200(y);
  }

  /** Whatever the changeover, a day comes back from its date exactly when it is a Gregorian one or its date read as a
      Gregorian one would not be. */
  lemma ComesBack(jd: int, changeover: int, y: int, m: int, d: int)
    requires Dated(jd, changeover, y, m, d)
    ensures DayOfDate(y, m, d, changeover) == jd <==> jd >= changeover || DayNumber(true, y, m, d) < changeover
  {
    ChosenDay(y, m, d, changeover);
  }

  /** From a day to its date and back to the day. */
  lemma DayRoundTrip(jd: int, changeover: int, y: int, m: int, d: int)
    requires changeover >= SAFE && Dated(jd, changeover, y, m, d)
    ensures DayOfDate(y, m, d, changeover) == jd
    ensures Chosen(y, m, d, changeover) == (jd >= changeover)
  {
    ChosenDay(y, m, d, changeover);
    if jd < changeover {
      NotMistaken(y, m, d, changeover);
    }
  }

  /** The month and day of a day of the year. */
  lemma {:induction false} SomeMonth(leap: bool, doy: int, n: int) returns (m: int)
    requires 1 <= n <= 12 && 1 <= doy <= Prior(leap, n + 1)
    ensures 1 <= m <= 12 && Prior(leap, m) < doy <= Prior(leap, m + 1)
  {
    if Prior(leap, n) < doy {
      m := n;
    } else {
      m := SomeMonth(leap, doy, n - 1);
    }
  }

  /** Every day has a Julian date. */
  lemma SomeDate(jd: int) returns (y: int, m: int, d: int)
    ensures ValidDate(false, y, m, d) && DayNumber(false, y, m, d) == jd
  {
    var day := jd - JDAY_1_JAN_1_CE_JULIAN;
    var c := day / FOUR_YEARS;
    var rest := day % FOUR_YEARS;
    var years := if rest >= 3 * ONE_YEAR then 3 else rest / ONE_YEAR;
    JulianDone(c, years, rest - ONE_YEAR * years, jd);
    y := 4 * c + years + 1;
    YearLength(false, y);
    var doy := rest - ONE_YEAR * years + 1;
    m := SomeMonth(Leap(false, y), doy, 12);
    d := doy - Prior(Leap(false, y), m);
  }

  /** Under an earlier changeover the day before it does not come back. */
  lemma DayBeforeLost(changeover: int) returns (y: int, m: int, d: int)
    requires changeover < SAFE
    ensures Dated(changeover - 1, changeover, y, m, d) && DayOfDate(y, m, d, changeover) != changeover - 1
  {
    y, m, d := SomeDate(changeover - 1);
    ReadsLater(y, m, d);
    ComesBack(changeover - 1, changeover, y, m, d);
  }

  /** Whichever day is dated, the date leads back to it. */
  ghost predicate DaysComeBack(changeover: int) {
    forall jd, y, m, d :: Dated(jd, changeover, y, m, d) ==> DayOfDate(y, m, d, changeover) == jd
  }

  /** Every day comes back exactly under a changeover not before the first safe one. */
  lemma AllComeBack(changeover: int)
    ensures DaysComeBack(changeover) <==> changeover >= SAFE
  {
    if changeover >= SAFE {
      forall jd, y, m, d | Dated(jd, changeover, y, m, d)
        ensures DayOfDate(y, m, d, changeover) == jd
      {
        DayRoundTrip(jd, changeover, y, m, d);
      }
    } else {
      var y, m, d := DayBeforeLost(changeover);
    }
  }

  /** The earliest changeover there was, 15 October 1582, is late enough. */
  lemma PapalComesBack()
    ensures DaysComeBack(PAPAL)
  {
    AllComeBack(PAPAL);
  }

  /** A date comes back exactly when it is a date of the calendar chosen for it and is not in the gap between the calendars. */
  lemma DateRoundTrip(y: int, m: int, d: int, changeover: int)
    requires 1 <= m <= 12
    ensures Dated(DayOfDate(y, m, d, changeover), changeover, y, m, d) <==>
      ValidDate(Chosen(y, m, d, changeover), y, m, d) && (Chosen(y, m, d, changeover) || DayNumber(false, y, m, d) < changeover)
  {
    ChosenDay(y, m, d, changeover);
    var g := Chosen(y, m, d, changeover);
    var jd := DayOfDate(y, m, d, changeover);
    assert !g ==> DayNumber(true, y, m, d) < changeover;
  }

  /** So every date of either calendar, Julian before the changeover and Gregorian from it on, comes back. */
  lemma CivilDatesRoundTrip(gregorian: bool, y: int, m: int, d: int, changeover: int)
    requires changeover >= SAFE && ValidDate(gregorian, y, m, d)
    requires gregorian == (DayNumber(gregorian, y, m, d) >= changeover)
    ensures Dated(DayOfDate(y, m, d, changeover), changeover, y, m, d)
    ensures Chosen(y, m, d, changeover) == gregorian
  {
    DayRoundTrip(DayNumber(gregorian, y, m, d), changeover, y, m, d);
  }

  /** For instance 30 December of 1 BCE, the changeover two days later. */
  lemma EarlyChangeover()
    ensures var jd := DayNumber(false, 0, 12, 30);
      Dated(jd, jd + 2, 0, 12, 30) && DayOfDate(0, 12, 30, jd + 2) == jd + 2
  {}

  /** There and back: the two conversions one after the other. The fields are the date of the day there was; the day is
      kept, and the fields with it, exactly when that date is not mistaken for one of the other calendar. */
  method ThereAndBack(f: DateFields, changeover: int)
    modifies f`julianDay, f`era, f`gregorian, f`year, f`dayOfYear, f`month, f`dayOfMonth
    ensures Dated(old(f.julianDay), changeover, f.Y(), f.month, f.dayOfMonth)
    ensures f.julianDay == old(f.julianDay) <==>
      old(f.julianDay) >= changeover || DayNumber(true, f.Y(), f.month, f.dayOfMonth) < changeover
    ensures changeover >= SAFE ==> f.julianDay == old(f.julianDay) && f.gregorian == (f.julianDay >= changeover)
  {
    DateOfDay(f, changeover);
    ComesBack(f.julianDay, changeover, f.Y(), f.month, f.dayOfMonth);
    if changeover >= SAFE {
      DayRoundTrip(f.julianDay, changeover, f.Y(), f.month, f.dayOfMonth);
    }
    OwnMonth(f.Y(), f.month);
    GetJulianDayFromEraYearMonthDay(f, changeover);
  }

  // ----- weeks

  /** `WeekdayOnOrBefore`. */
  function WeekdayOnOrBefore(dayOfWeek: int, julianDay: int): int {
    var k0 := CMod(dayOfWeek + 6, 7);
    var k := if k0 < 0 then k0 + 7 else k0;
    julianDay - CMod(julianDay - k, 7)
  }

  /** Day 0 was a Monday: the day found is of the weekday asked for, within a week; before the first such day it is after instead. */
  lemma WeekdayFound(dayOfWeek: int, julianDay: int)
    ensures var r := WeekdayOnOrBefore(dayOfWeek, julianDay);
      var k := (dayOfWeek + 6) % 7;
      && r % 7 == k
      && -7 < r - julianDay < 7
      && (r <= julianDay <==> julianDay >= k || julianDay % 7 == k)
  {
    var k0 := CMod(dayOfWeek + 6, 7);
    var k := if k0 < 0 then k0 + 7 else k0;
    Quotient7(dayOfWeek + 6, CDiv(dayOfWeek + 6, 7) - if k0 < 0 then 1 else 0, k);
    var back := CMod(julianDay - k, 7);
    Quotient7(julianDay - back, CDiv(julianDay - k, 7), k);
  }

  lemma Quotient7(a: int, q: int, r: int)
    requires a == 7 * q + r && 0 <= r < 7
    ensures a / 7 == q && a % 7 == r
  {}

  /** Monday of week 1. */
  function Start(y: int, changeover: int): int {
    WeekdayOnOrBefore(1, DayOfDate(y, 1, 4, changeover))
  }

  function DayOfWeekDate(y: int, week: int, dow: int, changeover: int): int {
    Start(y, changeover) + 7 * (week - 1) + dow - 1
  }

  /** `GetJulianDayFromEraYearWeekDay`. */
  method GetJulianDayFromEraYearWeekDay(f: DateFields, changeover: int)
    modifies f`julianDay
    ensures f.julianDay == DayOfWeekDate(Astronomical(f.era, f.iso8601Year), f.iso8601Week, f.dayOfWeek, changeover)
  {
    var firstWeek := new DateFields();
    firstWeek.era := f.era;
    firstWeek.year := f.iso8601Year;
    firstWeek.month := 1;
    firstWeek.dayOfMonth := 4;
    GetJulianDayFromEraYearMonthDay(firstWeek, changeover);
    var firstMonday := WeekdayOnOrBefore(1, firstWeek.julianDay);
    f.julianDay := firstMonday + 7 * (f.iso8601Week - 1) + f.dayOfWeek - 1;
  }

  /** Days whose ISO year and its neighbours lie in one calendar. */
  predicate Settled(jd: int, changeover: int) {
    changeover >= SAFE && (jd >= changeover + 400 || 800 <= jd < changeover - 800)
  }

  /** The year of one calendar that holds a day. */
  predicate Within(g: bool, y: int, jd: int) {
    Jan1(g, y) <= jd < Jan1(g, y + 1)
  }

  /** The Monday on or before a day, day 0 having been one. */
  function Monday(jd: int): int {
    7 * (jd / 7)
  }

  /** The week date of ISO 8601: the weekday counts from Monday, the year is the one that holds the week's Thursday,
      and the numbers name the day. */
  ghost predicate WeekDated(jd: int, changeover: int, y: int, week: int, dow: int) {
    forall u {:trigger Look(u)} :: Look(u) ==>
    && Within(jd >= changeover, y, Monday(jd) + 3)
    && Start(y, changeover) <= jd < Start(y + 1, changeover)
    && 1 <= week <= 53 && dow == jd - Monday(jd) + 1
    && DayOfWeekDate(y, week, dow, changeover) == jd
  }

  /** A day has one week date. */
  lemma OneWeekDate(jd: int, changeover: int, y: int, week: int, dow: int, y': int, week': int, dow': int)
    requires WeekDated(jd, changeover, y, week, dow) && WeekDated(jd, changeover, y', week', dow')
    ensures y == y' && week == week' && dow == dow'
  {
    assert Look(0);
    OneYear(jd >= changeover, Monday(jd) + 3, y, y');
  }

  lemma MondayBefore(x: int)
    requires x >= 0
    ensures WeekdayOnOrBefore(1, x) == Monday(x)
  {}

  lemma FourthOfJanuary(g: bool, y: int)
    ensures DayNumber(g, y, 1, 4) == Jan1(g, y) + 3 && ValidDate(g, y, 1, 4)
  {}

  lemma FourthChosen(g: bool, y: int, changeover: int)
    requires changeover >= SAFE
    requires if g then Jan1(true, y) + 3 >= changeover else Jan1(false, y) + 3 < changeover
    ensures DayOfDate(y, 1, 4, changeover) == Jan1(g, y) + 3
  {
    FourthOfJanuary(true, y);
    FourthOfJanuary(false, y);
    if !g {
      NotMistaken(y, 1, 4, changeover);
    }
    ChosenDay(y, 1, 4, changeover);
  }

  /** Year y starts at the Monday of the week of the 4th of January, the 1st being day `first`. */
  ghost predicate StartsBy(y: int, changeover: int, first: int) {
    forall u {:trigger Look(u)} :: Look(u) ==> Start(y, changeover) == Monday(first + 3)
  }

  lemma StartIn(g: bool, y: int, changeover: int, first: int)
    requires changeover >= SAFE && first >= 4 && first == Jan1(g, y)
    requires if g then first + 3 >= changeover else first + 3 < changeover
    ensures StartsBy(y, changeover, first)
  {
    FourthChosen(g, y, changeover);
    MondayBefore(first + 3);
  }

  /** Around a settled day the years start where one calendar says. */
  lemma StartsAround(g: bool, jd: int, y: int, changeover: int, a: int, b: int, c: int)
    requires Settled(jd, changeover) && g == (jd >= changeover) && a <= jd - 3 < b <= c
    requires a == Jan1(g, y) && b == Jan1(g, y + 1) && c == Jan1(g, y + 2) && b - a <= 366 && c - b <= 366
    ensures StartsBy(y, changeover, a) && StartsBy(y + 1, changeover, b) && StartsBy(y + 2, changeover, c)
  {
    StartIn(g, y, changeover, a);
    StartIn(g, y + 1, changeover, b);
    StartIn(g, y + 2, changeover, c);
  }

  lemma LengthBounds(g: bool, y: int)
    ensures 365 <= Jan1(g, y + 1) - Jan1(g, y) <= 366
  {
    YearLength(g, y);
  }

  lemma MondayNear(x: int)
    ensures x - 7 < Monday(x) <= x && Monday(x) % 7 == 0
  {}

  /** The ISO rule: a week is in the year its Thursday is in. */
  lemma ThursdayRule(first: int, jd: int)
    ensures Monday(first + 3) <= jd <==> first <= Monday(jd) + 3
  {}

  /** The ISO year of a day: it runs from its first Monday to the next year's, and holds the Thursday of the day's week. */
  ghost predicate IsoYearOf(jd: int, y: int, changeover: int) {
    forall u {:trigger Look(u)} :: Look(u) ==>
    && Start(y, changeover) <= jd < Start(y + 1, changeover) && jd - Start(y, changeover) < 371
    && Start(y, changeover) % 7 == 0 && Within(jd >= changeover, y, Monday(jd) + 3)
  }

  lemma IsoBetween(jd: int, y: int, changeover: int, a: int, b: int)
    requires StartsBy(y, changeover, a) && StartsBy(y + 1, changeover, b)
    requires Monday(a + 3) <= jd < Monday(b + 3) && jd - Monday(a + 3) < 371
    requires a == Jan1(jd >= changeover, y) && b == Jan1(jd >= changeover, y + 1)
    ensures IsoYearOf(jd, y, changeover)
  {
    assert Look(0);
    ThursdayRule(a, jd);
    ThursdayRule(b, jd);
    MondayNear(a + 3);
  }

  /** The guess one year high, stepped back once at most, is the ISO year. */
  lemma GuessIsRight(jd: int, y: int, changeover: int)
    requires Settled(jd, changeover) && Within(jd >= changeover, y, jd - 3)
    ensures IsoYearOf(jd, if jd < Start(y + 1, changeover) then y else y + 1, changeover)
  {
    var g := jd >= changeover;
    LengthBounds(g, y);
    LengthBounds(g, y + 1);
    Guessed(jd, y, changeover, Jan1(g, y), Jan1(g, y + 1), Jan1(g, y + 2));
  }

  lemma Guessed(jd: int, y: int, changeover: int, a: int, b: int, c: int)
    requires Settled(jd, changeover) && a <= jd - 3 < b && 365 <= b - a <= 366 && 365 <= c - b <= 366
    requires var g := jd >= changeover; a == Jan1(g, y) && b == Jan1(g, y + 1) && c == Jan1(g, y + 2)
    ensures IsoYearOf(jd, if jd < Start(y + 1, changeover) then y else y + 1, changeover)
  {
    StartsAround(jd >= changeover, jd, y, changeover, a, b, c);
    assert Start(y + 1, changeover) == Monday(b + 3) by {
      assert Look(0);
    }
    GuessInYears(jd, a, b, c);
    if jd < Monday(b + 3) {
      IsoBetween(jd, y, changeover, a, b);
    } else {
      IsoBetween(jd, y + 1, changeover, b, c);
    }
  }

  /** The arithmetic of the guess, for a year from `a` to `b` and the next to `c`. */
  lemma GuessInYears(jd: int, a: int, b: int, c: int)
    requires a <= jd - 3 < b && 365 <= b - a <= 366 && 365 <= c - b <= 366
    ensures jd < Monday(b + 3) ==> 0 <= jd - Monday(a + 3) < 371
    ensures jd >= Monday(b + 3) ==> jd - Monday(b + 3) < 371 && jd < Monday(c + 3)
  {
    MondayNear(a + 3);
    MondayNear(b + 3);
    MondayNear(c + 3);
  }

  /** The weekday of a day of the year, as computed. */
  function Weekday(day: int): int {
    if CMod(day + 1, 7) < 1 then CMod(day + 1, 7) + 7 else CMod(day + 1, 7)
  }

  lemma WeekOfDay(start: int, day: int)
    requires day >= 0
    ensures 7 * CDiv(day, 7) + Weekday(day) - 1 == day && 0 <= CDiv(day, 7) && (day < 371 ==> CDiv(day, 7) <= 52)
    ensures start % 7 == 0 ==> Weekday(day) == start + day - Monday(start + day) + 1
  {
    if start % 7 == 0 {
      assert (start + day) / 7 == start / 7 + day / 7;
    }
  }

  /** The week and weekday computed name the day, and are the ISO ones in the ISO year. */
  lemma WeekFound(jd: int, y: int, changeover: int)
    requires Start(y, changeover) <= jd
    ensures var day := jd - Start(y, changeover);
      && DayOfWeekDate(y, CDiv(day, 7) + 1, Weekday(day), changeover) == jd
      && (IsoYearOf(jd, y, changeover) ==> WeekDated(jd, changeover, y, CDiv(day, 7) + 1, Weekday(day)))
  {
    assert Look(0);
    WeekOfDay(Start(y, changeover), jd - Start(y, changeover));
  }

  /** The guess of the ISO year and the start of the year settled on. */
  method IsoYear(julianDay: int, changeover: int) returns (temp: DateFields, ghost y: int)
    ensures fresh(temp) && Within(julianDay - 3 >= changeover, y, julianDay - 3)
    ensures temp.julianDay == Start(Astronomical(temp.era, temp.iso8601Year), changeover)
    ensures Astronomical(temp.era, temp.iso8601Year) == if julianDay < Start(y + 1, changeover) then y else y + 1
  {
    temp := new DateFields();
    temp.julianDay := julianDay - 3;
    GetGregorianEraYearDay(temp, changeover);
    y := temp.Y();
    if temp.era == BCE {
      temp.iso8601Year := temp.year - 1;
    } else {
      temp.iso8601Year := temp.year + 1;
    }
    temp.iso8601Week := 1;
    temp.dayOfWeek := 1;
    GetJulianDayFromEraYearWeekDay(temp, changeover);
    if julianDay < temp.julianDay {
      if temp.era == BCE {
        temp.iso8601Year := temp.iso8601Year + 1;
      } else {
        temp.iso8601Year := temp.iso8601Year - 1;
      }
      GetJulianDayFromEraYearWeekDay(temp, changeover);
    }
  }

  /** The guess, the step back and the week computed, together. */
  lemma WeekComputed(jd: int, changeover: int, y0: int, y: int, week: int, dow: int)
    requires Within(jd - 3 >= changeover, y0, jd - 3)
    requires y == if jd < Start(y0 + 1, changeover) then y0 else y0 + 1
    requires var day := jd - Start(y, changeover); week == CDiv(day, 7) + 1 && dow == Weekday(day)
    ensures Start(y, changeover) <= jd ==> DayOfWeekDate(y, week, dow, changeover) == jd
    ensures Settled(jd, changeover) ==> WeekDated(jd, changeover, y, week, dow)
  {
    if Start(y, changeover) <= jd {
      WeekFound(jd, y, changeover);
    }
    if Settled(jd, changeover) {
      GuessIsRight(jd, y0, changeover);
      IsoFound(jd, y, changeover, week, dow);
    }
  }

  lemma IsoFound(jd: int, y: int, changeover: int, week: int, dow: int)
    requires IsoYearOf(jd, y, changeover)
    requires var day := jd - Start(y, changeover); week == CDiv(day, 7) + 1 && dow == Weekday(day)
    ensures WeekDated(jd, changeover, y, week, dow)
  {
    assert Start(y, changeover) <= jd by {
      assert Look(0);
    }
    WeekFound(jd, y, changeover);
  }

  /** `GetYearWeekDay`; the year it stores is one of the era of three days before. */
  method GetYearWeekDay(f: DateFields, changeover: int) returns (ghost era: Era)
    modifies f`iso8601Year, f`iso8601Week, f`dayOfWeek
    ensures var y := Astronomical(era, f.iso8601Year);
      && (Start(y, changeover) <= f.julianDay ==> DayOfWeekDate(y, f.iso8601Week, f.dayOfWeek, changeover) == f.julianDay)
      && (Settled(f.julianDay, changeover) ==> WeekDated(f.julianDay, changeover, y, f.iso8601Week, f.dayOfWeek))
  {
    ghost var y0;
    var temp;
    temp, y0 := IsoYear(f.julianDay, changeover);
    era := temp.era;
    f.iso8601Year := temp.iso8601Year;
    var dayOfFiscalYear := f.julianDay - temp.julianDay;
    f.iso8601Week := CDiv(dayOfFiscalYear, 7) + 1;
    f.dayOfWeek := CMod(dayOfFiscalYear + 1, 7);
    if f.dayOfWeek < 1 {
      f.dayOfWeek := f.dayOfWeek + 7;
    }
    assert f.dayOfWeek == Weekday(dayOfFiscalYear);
    WeekComputed(f.julianDay, changeover, y0, Astronomical(era, f.iso8601Year), f.iso8601Week, f.dayOfWeek);
  }

  // ----- some days

  /** A date from the starts of its year. */
  lemma FromStarts(y: int, m: int, d: int, changeover: int, a: int, b: int)
    requires 1 <= m <= 12 && 1 <= d <= 28
    requires a == Jan1(true, y) + Prior(Leap(true, y), m) + d - 1 && b == Jan1(false, y) + Prior(Leap(false, y), m) + d - 1
    ensures a >= changeover ==> DayOfDate(y, m, d, changeover) == a && Dated(a, changeover, y, m, d)
    ensures a < changeover && b < changeover ==> DayOfDate(y, m, d, changeover) == b && Dated(b, changeover, y, m, d)
  {
    ChosenDay(y, m, d, changeover);
    MonthLengths(true, m);
    MonthLengths(false, m);
  }

  lemma OnItself(dayOfWeek: int, weeks: nat, jd: int)
    requires 1 <= dayOfWeek <= 7 && jd == 7 * weeks + dayOfWeek - 1
    ensures WeekdayOnOrBefore(dayOfWeek, jd) == jd && jd % 7 == dayOfWeek - 1
  {
    Quotient7(jd, weeks, dayOfWeek - 1);
    WeekdayFound(dayOfWeek, jd);
  }

  /** The changeover of October 1582, from Thursday the 4th to Friday the 15th. */
  lemma KnownChangeover(y: int, jd: int)
    requires y == 1582 && jd == 2299161
    ensures DayOfDate(y, 10, 4, jd) == jd - 1 && Dated(jd - 1, jd, y, 10, 4)
    ensures DayOfDate(y, 10, 15, jd) == jd && Dated(jd, jd, y, 10, 15)
    ensures WeekdayOnOrBefore(4, jd - 1) == jd - 1 && WeekdayOnOrBefore(5, jd) == jd
  {
    YearParts(3, 3, 20, 1);
    JulianParts(395, 1);
    FromStarts(y, 10, 4, jd, jd - 11, jd - 1);
    FromStarts(y, 10, 15, jd, jd, jd + 10);
    OnItself(4, 328451, jd - 1);
    OnItself(5, 328451, jd);
  }

  /** The first day of POSIX time, a Thursday in the first week of its year. */
  lemma KnownEpoch(y: int, jd: int)
    requires y == 1970 && jd == 2440588
    ensures DayOfDate(y, 1, 1, PAPAL) == jd && Dated(jd, PAPAL, y, 1, 1)
    ensures WeekdayOnOrBefore(4, jd) == jd && WeekDated(jd, PAPAL, y, 1, 4)
  {
    YearParts(4, 3, 17, 1);
    FromStarts(y, 1, 1, PAPAL, jd, Jan1(false, y));
    OnItself(4, 348655, jd);
    FirstWeek(y, jd);
  }

  /** A Thursday that starts a year is day 4 of its week 1. */
  lemma FirstWeek(y: int, jd: int)
    requires jd == Jan1(true, y) && jd % 7 == 3 && jd >= PAPAL
    ensures WeekDated(jd, PAPAL, y, 1, 4)
  {
    LengthBounds(true, y);
    FourthChosen(true, y, PAPAL);
    FourthChosen(true, y + 1, PAPAL);
    MondayBefore(jd + 3);
    MondayBefore(Jan1(true, y + 1) + 3);
    MondayNear(Jan1(true, y + 1) + 3);
    assert Monday(jd) == jd - 3 && Monday(jd + 3) == jd - 3;
  }

  /** Julian Days are counted from a Monday, the first day of 4713 BCE. */
  lemma KnownOrigin(y: int)
    requires y == -4712
    ensures DayOfDate(y, 1, 1, PAPAL) == 0 && Dated(0, PAPAL, y, 1, 1)
    ensures WeekdayOnOrBefore(1, 0) == 0
  {
    YearParts(-12, 0, 21, 3);
    JulianParts(-1179, 3);
    FromStarts(y, 1, 1, PAPAL, 38, 0);
    OnItself(1, 0, 0);
  }
}
