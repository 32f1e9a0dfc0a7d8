/** Calendar arithmetic of duk_bi_date.c: days, years and months of the proleptic Gregorian calendar. */
module DateCalendar {
  import opened Bytes

  /** Integer division of C: towards zero. */
  function CDiv(a: int, b: int): int
    requires b > 0
  {
    if a >= 0 then a / b else -(-a / b)
  }

  function CMod(a: int, b: int): int
    requires b > 0
  {
    a - b * CDiv(a, b)
  }

  /** duk__div_floor: the C division, corrected for negative numbers. */
  function DivFloor(a: int, b: int): (q: int)
    requires b > 0
    ensures q * b <= a < q * b + b
  {
    if a >= 0 then
      CDiv(a, b)
    else
      Ceiling(-a, b);
      CDiv(a - b + 1, b)
  }

  /** For positive numbers, -((n + b - 1) / b) is the floor of -n / b. */
  lemma Ceiling(n: int, b: int)
    requires n > 0 && b > 0
    ensures var q := (n + b - 1) / b; (q - 1) * b < n <= q * b
  {
    var q := (n + b - 1) / b;
    assert q * b <= n + b - 1 < q * b + b;
  }

  lemma FloorUnique(a: int, b: int, q: int)
    requires b > 0 && q * b <= a < q * b + b
    ensures q == a / b
  {
    var r := a / b;
    assert r * b <= a < r * b + b;
    assert (q - r) * b == q * b - r * b;
    NoMultiple(q - r, b);
  }

  lemma NoMultiple(k: int, b: int)
    requires b > 0 && -b < k * b < b
    ensures k == 0
  {}

  predicate IsLeap(year: int) {
    if CMod(year, 4) != 0 then false
    else if CMod(year, 100) != 0 then true
    else CMod(year, 400) == 0
  }

  /** The number of the first day of a year. */
  function DayFromYear(year: int): int {
    365 * (year - 1970) + DivFloor(year - 1969, 4) - DivFloor(year - 1901, 100) + DivFloor(year - 1601, 400)
  }

  lemma DayFromYearFloor(year: int)
    ensures DayFromYear(year) == 365 * (year - 1970) + (year - 1969) / 4 - (year - 1901) / 100 + (year - 1601) / 400
  {
    FloorUnique(year - 1969, 4, DivFloor(year - 1969, 4));
    FloorUnique(year - 1901, 100, DivFloor(year - 1901, 100));
    FloorUnique(year - 1601, 400, DivFloor(year - 1601, 400));
  }

  /** The sign of the remainder does not matter for leap years. */
  lemma LeapModulo(year: int)
    ensures IsLeap(year) <==> year % 4 == 0 && (year % 100 == 0 ==> year % 400 == 0)
  {
    ModuloZero(year, 4);
    ModuloZero(year, 100);
    ModuloZero(year, 400);
  }

  lemma ModuloZero(a: int, b: int)
    requires b > 0
    ensures CMod(a, b) == 0 <==> a % b == 0
  {
    if a < 0 {
      var q, r := -a / b, -a % b;
      assert -a == q * b + r;
      assert CMod(a, b) == -r;
      if r == 0 {
        FloorUnique(a, b, -q);
      } else {
        assert (-q - 1) * b == -(q * b) - b;
        FloorUnique(a, b, -q - 1);
      }
    }
  }

  function DaysInYear(year: int): int {
    if IsLeap(year) then 366 else 365
  }

  lemma YearLength(year: int)
    ensures DayFromYear(year + 1) == DayFromYear(year) + DaysInYear(year)
  {
    DayFromYearFloor(year);
    DayFromYearFloor(year + 1);
    LeapModulo(year);
    hide DayFromYear, IsLeap;
    Carry4(year);
    Carry100(year);
    Carry400(year);
  }

  lemma Carry4(y: int)
    ensures (y - 1968) / 4 - (y - 1969) / 4 == if y % 4 == 0 then 1 else 0
  {}

  lemma Carry100(y: int)
    ensures (y - 1900) / 100 - (y - 1901) / 100 == if y % 100 == 0 then 1 else 0
    ensures y % 100 == 0 ==> y % 4 == 0
  {}

  lemma Carry400(y: int)
    ensures (y - 1600) / 400 - (y - 1601) / 400 == if y % 400 == 0 then 1 else 0
    ensures y % 400 == 0 ==> y % 100 == 0
  {}

  lemma {:induction false} YearsApart(a: int, b: int)
    requires a <= b
    ensures DayFromYear(a) + 365 * (b - a) <= DayFromYear(b) <= DayFromYear(a) + 366 * (b - a)
    decreases b - a
  {
    hide DayFromYear, IsLeap;
    if a < b {
      YearsApart(a, b - 1);
      YearLength(b - 1);
    }
  }

  lemma Epoch()
    ensures DayFromYear(1970) == 0
  {
    DayFromYearFloor(1970);
  }

  predicate YearOf(day: int, year: int) {
    DayFromYear(year) <= day < DayFromYear(year + 1)
  }

  lemma YearUnique(day: int, y: int, z: int)
    requires YearOf(day, y) && YearOf(day, z)
    ensures y == z
  {
    hide DayFromYear;
    if y < z { YearsApart(y + 1, z); }
    if z < y { YearsApart(z + 1, y); }
  }

  /** The first estimate is high; each correction stays at or above the year. */
  method YearFromDay(day: int) returns (year: int, dayInYear: nat)
    ensures YearOf(day, year) && dayInYear == day - DayFromYear(year) && dayInYear < DaysInYear(year)
  {
    hide DayFromYear, IsLeap;
    Epoch();
    if day >= 0 {
      year := 1970 + CDiv(day, 365);
      YearsApart(1970, year + 1);
    } else {
      year := 1970 + CDiv(day, 366);
      YearsApart(1970, 1971);
      if year < 1970 { YearsApart(year + 1, 1970); }
    }
    while true
      invariant day < DayFromYear(year + 1)
      decreases DayFromYear(year) - day
    {
      var diff := DayFromYear(year) - day;
      if diff <= 0 {
        YearLength(year);
        return year, -diff;
      }
      var back := CDiv(diff - 1, 366);
      YearsApart(year - back, year);
      YearsApart(year - 1 - back, year);
      year := year - (1 + back);
    }
  }

  // ----- Months -----

  function DaysInMonth(month: nat): nat
    requires month < 12
  {
    [31, 28, 31, 30, 31, 30, 31, 31, 30, 31, 30, 31][month]
  }

  function MonthLength(month: nat, leap: bool): (n: nat)
    requires month < 12
    ensures 28 <= n <= 31
  {
    DaysInMonth(month) + if month == 1 && leap then 1 else 0
  }

  /** The number of days before a month. */
  function MonthStart(month: nat, leap: bool): nat
    requires month <= 12
  {
    if month == 0 then 0 else MonthStart(month - 1, leap) + MonthLength(month - 1, leap)
  }

  lemma {:induction false} MonthsFill(leap: bool)
    ensures MonthStart(12, leap) == if leap then 366 else 365
  {
    var extra := if leap then 1 else 0;
    assert MonthStart(2, leap) == MonthStart(1, leap) + 28 + extra == 59 + extra;
    assert MonthStart(4, leap) == MonthStart(3, leap) + 30 == 120 + extra;
    assert MonthStart(6, leap) == MonthStart(5, leap) + 30 == 181 + extra;
    assert MonthStart(8, leap) == MonthStart(7, leap) + 31 == 243 + extra;
    assert MonthStart(10, leap) == MonthStart(9, leap) + 31 == 304 + extra;
  }

  lemma {:induction false} MonthsGrow(m: nat, n: nat, leap: bool)
    requires m < n <= 12
    ensures MonthStart(m, leap) + MonthLength(m, leap) <= MonthStart(n, leap)
    decreases n - m
  {
    hide MonthLength;
    if m < n - 1 { MonthsGrow(m, n - 1, leap); }
  }

  /** The month starts of E5.1 section 15.9.1.4, where DayWithinYear passes from one month to the next. */
  lemma {:induction false} MonthStarts(month: nat, leap: bool)
    requires month < 12
    ensures MonthStart(month, leap)
            == [0, 31, 59, 90, 120, 151, 181, 212, 243, 273, 304, 334][month] + if leap && month >= 2 then 1 else 0
  {
    if month > 0 { MonthStarts(month - 1, leap); }
  }

  // ----- Weekdays and equivalent years -----

  /** E5.1 section 15.9.1.6; day 0 was a Thursday. */
  function WeekDay(day: int): (w: nat)
    ensures w < 7
  {
    (day + 4) % 7
  }

  /** Weekdays follow each other; 1 January 1970 was a Thursday, weekday 4. */
  lemma WeekDays(day: int)
    ensures WeekDay(0) == 4 && WeekDay(day + 1) == (if WeekDay(day) == 6 then 0 else WeekDay(day) + 1)
  {}

  /** The C expression: an adder, a multiple of 7, keeps the remainder non-negative. */
  function WeekDayC(day: int): int {
    CMod(day + 4 + 20_000_000 * 7, 7)
  }

  lemma WeekDayAdder(day: int)
    requires day + 20_000_000 * 7 >= 0
    ensures WeekDayC(day) == WeekDay(day)
  {
    Seven(day + 4, 20_000_000);
  }

  lemma Seven(x: int, k: int)
    ensures (x + 7 * k) % 7 == x % 7
  {}

  /** Years from 2008 to 2035 that begin on each weekday: common ones, then leap years. */
  const EQUIV_YEAR: seq<int> := [2023, 2035, 2019, 2031, 2015, 2027, 2011, 2012, 2024, 2008, 2020, 2032, 2016, 2028]

  function EquivalentYear(jan1: int, leap: bool): (y: int)
    requires jan1 + 20_000_000 * 7 >= 0
  {
    WeekDayAdder(jan1);
    EQUIV_YEAR[WeekDayC(jan1) + if leap then 7 else 0]
  }

  /** The mapped year is as long, and begins on the same weekday; so do all of its months. */
  lemma EquivalentYearFits(year: int)
    requires DayFromYear(year) + 20_000_000 * 7 >= 0
    ensures var y := EquivalentYear(DayFromYear(year), IsLeap(year));
            && 1971 <= y <= 2037 && IsLeap(y) == IsLeap(year) && WeekDay(DayFromYear(y)) == WeekDay(DayFromYear(year))
  {
    hide DayFromYear, IsLeap, WeekDayC, WeekDay;
    WeekDayAdder(DayFromYear(year));
    TableYear(WeekDay(DayFromYear(year)), IsLeap(year));
  }

  lemma TableYear(w: nat, leap: bool)
    requires w < 7
    ensures var y := EQUIV_YEAR[w + if leap then 7 else 0];
            1971 <= y <= 2037 && IsLeap(y) == leap && WeekDay(DayFromYear(y)) == w
  {
    var y := EQUIV_YEAR[w + if leap then 7 else 0];
    DayFromYearFloor(y);
    LeapModulo(y);
    hide DayFromYear, IsLeap;
    if leap { LeapTable(w); } else { CommonTable(w); }
  }

  lemma CommonTable(w: nat)
    requires w < 7
    ensures var y := EQUIV_YEAR[w];
            1971 <= y <= 2037 && y % 4 != 0 && (365 * (y - 1970) + (y - 1969) / 4 - (y - 1901) / 100 + (y - 1601) / 400 + 4) % 7 == w
  {}

  lemma LeapTable(w: nat)
    requires w < 7
    ensures var y := EQUIV_YEAR[w + 7];
            && 1971 <= y <= 2037 && y % 4 == 0 && y % 100 != 0
            && (365 * (y - 1970) + (y - 1969) / 4 - (y - 1901) / 100 + (y - 1601) / 400 + 4) % 7 == w
  {}
}
