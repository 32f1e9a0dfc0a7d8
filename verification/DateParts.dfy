/** Time values and their parts, and the conversion of local time to UTC, of duk_bi_date.c. */
module DateParts {
  import opened Bytes
  import opened DateCalendar

  const MSEC_DAY: int := 86_400_000
  const MSEC_HOUR: int := 3_600_000
  const MSEC_MINUTE: int := 60_000
  /** 100 million days on either side of the epoch, E5.1 section 15.9.1.1; local time may be one day outside. */
  const LIMIT: int := 8_640_000_000_000_000
  const LEEWAY: int := 8_640_000_086_400_000
  const MIN_YEAR: int := -271_821
  const MAX_YEAR: int := 275_760

  /** Month and day count from zero. */
  datatype Parts = Parts(year: int, month: int, day: int, hour: int, minute: int, second: int, millisecond: int, weekday: int)

  predicate InRange(d: int) {
    -LIMIT <= d <= LIMIT
  }

  predicate InLeeway(d: int) {
    -LEEWAY <= d <= LEEWAY
  }

  function DayNumber(year: int, month: nat, day: int): int
    requires month < 12
  {
    DayFromYear(year) + MonthStart(month, IsLeap(year)) + day
  }

  function TimeInDay(p: Parts): int {
    p.hour * MSEC_HOUR + p.minute * MSEC_MINUTE + p.second * 1000 + p.millisecond
  }

  predicate ValidDate(p: Parts) {
    && 0 <= p.month < 12 && 0 <= p.day < MonthLength(p.month, IsLeap(p.year))
    && p.weekday == WeekDay(DayNumber(p.year, p.month, p.day))
  }

  predicate ValidTime(p: Parts) {
    0 <= p.hour < 24 && 0 <= p.minute < 60 && 0 <= p.second < 60 && 0 <= p.millisecond < 1000
  }

  predicate ValidParts(p: Parts) {
    ValidDate(p) && ValidTime(p)
  }

  /** The time value that valid parts stand for. */
  function TimeOf(p: Parts): int
    requires ValidParts(p)
  {
    DayNumber(p.year, p.month, p.day) * MSEC_DAY + TimeInDay(p)
  }

  // ----- Parts are unique -----

  lemma TimeInDayBound(p: Parts)
    requires ValidTime(p)
    ensures 0 <= TimeInDay(p) < MSEC_DAY
  {}

  lemma SplitUnique(a: int, b: int, x: int, y: int)
    requires 0 <= x < MSEC_DAY && 0 <= y < MSEC_DAY && a * MSEC_DAY + x == b * MSEC_DAY + y
    ensures a == b && x == y
  {}

  lemma TimeUnique(p: Parts, q: Parts)
    requires ValidTime(p) && ValidTime(q) && TimeInDay(p) == TimeInDay(q)
    ensures p.hour == q.hour && p.minute == q.minute && p.second == q.second && p.millisecond == q.millisecond
  {}

  lemma YearOfParts(p: Parts)
    requires ValidDate(p)
    ensures YearOf(DayNumber(p.year, p.month, p.day), p.year)
  {
    hide DayFromYear, IsLeap, MonthLength, MonthStart;
    YearLength(p.year);
    MonthsGrow(p.month, 12, IsLeap(p.year));
    MonthsFill(IsLeap(p.year));
  }

  lemma PartsUnique(p: Parts, q: Parts)
    requires ValidParts(p) && ValidParts(q) && TimeOf(p) == TimeOf(q)
    ensures p == q
  {
    hide DayFromYear, IsLeap, MonthLength, MonthStart, WeekDay;
    TimeInDayBound(p);
    TimeInDayBound(q);
    SplitUnique(DayNumber(p.year, p.month, p.day), DayNumber(q.year, q.month, q.day), TimeInDay(p), TimeInDay(q));
    TimeUnique(p, q);
    YearOfParts(p);
    YearOfParts(q);
    YearUnique(DayNumber(p.year, p.month, p.day), p.year, q.year);
    if p.month < q.month { MonthsGrow(p.month, q.month, IsLeap(p.year)); }
    if q.month < p.month { MonthsGrow(q.month, p.month, IsLeap(p.year)); }
  }

  // ----- Splitting -----

  method MonthFromDay(dayInYear: nat, leap: bool) returns (month: nat, day: nat)
    requires dayInYear < if leap then 366 else 365
    ensures month < 12 && day < MonthLength(month, leap) && dayInYear == MonthStart(month, leap) + day
  {
    hide MonthLength;
    MonthsFill(leap);
    month, day := 0, dayInYear;
    while month < 12
      invariant month <= 12 && dayInYear == MonthStart(month, leap) + day
    {
      var dim := MonthLength(month, leap);
      if day < dim { return; }
      day := day - dim;
      month := month + 1;
    }
  }

  method SplitTime(d: int) returns (p: Parts)
    requires InLeeway(d)
    ensures ValidParts(p) && TimeOf(p) == d
  {
    hide DayFromYear, IsLeap, MonthLength, MonthStart, WeekDay, WeekDayC;
    var t1 := d % MSEC_DAY;
    var t2 := d / MSEC_DAY;
    var millisecond := t1 % 1000;
    t1 := t1 / 1000;
    var second := t1 % 60;
    t1 := t1 / 60;
    var minute := t1 % 60;
    var hour := t1 / 60;
    WeekDayAdder(t2);
    var weekday := WeekDayC(t2);
    var year, dayInYear := YearFromDay(t2);
    var month, day := MonthFromDay(dayInYear, IsLeap(year));
    p := Parts(year, month, day, hour, minute, second, millisecond, weekday);
  }

  /** The year that the time zone lookup of the platform is asked about, and numbers from one. */
  function Adjusted(p: Parts, equivYear: bool, oneBased: bool): Parts
    requires ValidParts(p) && DayFromYear(p.year) + 20_000_000 * 7 >= 0
  {
    var year := if equivYear && (p.year < 1971 || p.year > 2037) then EquivalentYear(DayFromYear(p.year), IsLeap(p.year)) else p.year;
    var one := if oneBased then 1 else 0;
    p.(year := year, month := p.month + one, day := p.day + one)
  }

  /** The year is mapped only on request and from 1971 to 2037; every date keeps its weekday, and the clock is not touched. */
  lemma AdjustedParts(p: Parts, equivYear: bool, oneBased: bool)
    requires ValidParts(p) && DayFromYear(p.year) + 20_000_000 * 7 >= 0
    ensures var r, one := Adjusted(p, equivYear, oneBased), if oneBased then 1 else 0;
            && r.month == p.month + one && r.day == p.day + one && r.weekday == p.weekday
            && r.hour == p.hour && r.minute == p.minute && r.second == p.second && r.millisecond == p.millisecond
            && (!equivYear || 1971 <= p.year <= 2037 ==> r.year == p.year)
            && (equivYear ==> 1971 <= r.year <= 2037)
            && WeekDay(DayNumber(r.year, p.month, p.day)) == WeekDay(DayNumber(p.year, p.month, p.day))
  {
    hide DayFromYear, IsLeap, MonthLength, WeekDay, MonthStart, EquivalentYear;
    EquivalentYearFits(p.year);
    var r := Adjusted(p, equivYear, oneBased);
    SameWeekDay(DayFromYear(r.year), DayFromYear(p.year), MonthStart(p.month, IsLeap(p.year)) + p.day);
  }

  lemma SameWeekDay(a: int, b: int, n: int)
    requires WeekDay(a) == WeekDay(b)
    ensures WeekDay(a + n) == WeekDay(b + n)
  {}

  lemma YearRange(d: int, p: Parts)
    requires InLeeway(d) && ValidParts(p) && TimeOf(p) == d
    ensures MIN_YEAR <= p.year <= MAX_YEAR && DayFromYear(p.year) + 20_000_000 * 7 >= 0
  {
    hide DayFromYear, IsLeap, MonthLength, MonthStart, WeekDay;
    TimeInDayBound(p);
    YearOfParts(p);
    var day := DayNumber(p.year, p.month, p.day);
    assert -100_000_001 <= day <= 100_000_001;
    FirstYear();
    LastYear();
    if p.year < MIN_YEAR { YearsApart(p.year + 1, MIN_YEAR); }
    if p.year > MAX_YEAR { YearsApart(MAX_YEAR + 1, p.year); }
    YearsApart(MIN_YEAR, if p.year < MIN_YEAR then MIN_YEAR else p.year);
  }

  lemma FirstYear()
    ensures -100_000_111 < DayFromYear(MIN_YEAR) < -100_000_001
  {
    DayFromYearFloor(MIN_YEAR);
  }

  lemma LastYear()
    ensures DayFromYear(MAX_YEAR + 1) > 100_000_001
  {
    DayFromYearFloor(MAX_YEAR + 1);
  }

  method TimevalToParts(d: int, equivYear: bool, oneBased: bool) returns (r: Parts, ghost p: Parts)
    requires InLeeway(d)
    ensures ValidParts(p) && TimeOf(p) == d && DayFromYear(p.year) + 20_000_000 * 7 >= 0 && r == Adjusted(p, equivYear, oneBased)
  {
    hide DayFromYear, IsLeap, MonthLength, MonthStart, WeekDay, EquivalentYear;
    r := SplitTime(d);
    p := r;
    YearRange(d, p);
    if equivYear && (r.year < 1971 || r.year > 2037) {
      r := r.(year := EquivalentYear(DayFromYear(r.year), IsLeap(r.year)));
    }
    if oneBased { r := r.(month := r.month + 1, day := r.day + 1); }
  }

  // ----- Building -----

  /** E5.1 section 15.9.1.12; None stands for NaN. */
  function MakeDaySpec(year: int, month: int, day: int): Option<int> {
    var y := year + month / 12;
    if MIN_YEAR <= y <= MAX_YEAR then Some(DayNumber(y, month % 12, day)) else None
  }

  /** Twelve months are a year, days simply add up, and day 0 is 1 January 1970. */
  lemma {:induction false} MakeDayLaws(year: int, month: int, day: int, k: int)
    ensures MakeDaySpec(year, month + 12, day) == MakeDaySpec(year + 1, month, day)
    ensures var a := MakeDaySpec(year, month, day);
            MakeDaySpec(year, month, day + k) == if a.Some? then Some(a.value + k) else None
    ensures MakeDaySpec(1970, 0, 0) == Some(0)
  {
    Epoch();
    Twelve(month);
    MonthInYear(0);
    assert MonthStart(0, IsLeap(1970)) == 0;
    hide DayFromYear, IsLeap, MonthStart;
  }

  lemma Twelve(m: int)
    ensures (m + 12) / 12 == m / 12 + 1 && (m + 12) % 12 == m % 12
  {}

  method MakeDay(year: int, month: int, day: int) returns (r: Option<int>)
    ensures r == MakeDaySpec(year, month, day)
  {
    hide DayFromYear, IsLeap, MonthLength;
    var y := year + month / 12;
    var n := CMod(month, 12);
    if n < 0 { n := n + 12; }
    Remainder(month);
    if y < MIN_YEAR || y > MAX_YEAR { return None; }
    var dayNum, leap := DayFromYear(y), IsLeap(y);
    var i := 0;
    while i < n
      invariant 0 <= i <= n && dayNum == DayFromYear(y) + MonthStart(i, leap)
    {
      dayNum := dayNum + DaysInMonth(i);
      if i == 1 && leap { dayNum := dayNum + 1; }
      MonthParts(i, leap);
      i := i + 1;
    }
    return Some(dayNum + day);
  }

  lemma MonthParts(i: nat, leap: bool)
    requires i < 12
    ensures MonthLength(i, leap) == DaysInMonth(i) + if i == 1 && leap then 1 else 0
  {}

  lemma Remainder(m: int)
    ensures m % 12 == CMod(m, 12) + if CMod(m, 12) < 0 then 12 else 0
  {}

  function Clip(d: int): Option<int> {
    if InRange(d) then Some(d) else None
  }

  /** The ranges of time values, E5.1 sections 15.9.1.1 and 15.9.1.14, and of years. */
  lemma Ranges(d: int, year: int, day: int)
    ensures Clip(d) == if -8_640_000_000_000_000 <= d <= 8_640_000_000_000_000 then Some(d) else None
    ensures MakeDaySpec(year, 0, day).Some? <==> -271_821 <= year <= 275_760
  {
    MonthInYear(0);
    hide DayFromYear, IsLeap;
  }

  /** E5.1 sections 15.9.1.11, 15.9.1.13 and 15.9.1.14 for parts in UTC; the parts need not be in their ranges. */
  function TimeFromParts(p: Parts): Option<int> {
    var day := MakeDaySpec(p.year, p.month, p.day);
    if day.None? then None else Clip(day.value * MSEC_DAY + TimeInDay(p))
  }

  method TimeFromDparts(p: Parts, local: Option<int -> int>) returns (r: Option<int>)
    ensures local.None? ==> r == TimeFromParts(p)
    ensures local.Some? ==> var day := MakeDaySpec(p.year, p.month, p.day);
              if day.None? then r.None?
              else exists off :: Utc(local.value, day.value * MSEC_DAY + TimeInDay(p), off)
                                 && r == Clip(day.value * MSEC_DAY + TimeInDay(p) - 1000 * off)
  {
    hide MakeDaySpec, Utc;
    var time := 0;
    time := time + p.hour * MSEC_HOUR;
    time := time + p.minute * MSEC_MINUTE;
    time := time + p.second * 1000;
    time := time + p.millisecond;
    var day := MakeDay(p.year, p.month, p.day);
    if day.None? { return None; }
    var d := day.value * MSEC_DAY + time;
    if local.Some? {
      var off, _ := LocalOffset(local.value, d);
      assert Utc(local.value, day.value * MSEC_DAY + TimeInDay(p), off);
      d := d - 1000 * off;
    }
    return if InRange(d) then Some(d) else None;
  }

  /** Rebuilding undoes splitting, on all time values. */
  lemma RebuildSplit(d: int, p: Parts)
    requires InRange(d) && ValidParts(p) && TimeOf(p) == d
    ensures TimeFromParts(p) == Some(d)
  {
    hide DayFromYear, IsLeap, MonthLength, MonthStart, WeekDay;
    YearRange(d, p);
    MonthInYear(p.month);
  }

  lemma MonthInYear(m: int)
    requires 0 <= m < 12
    ensures m / 12 == 0 && m % 12 == m
  {}

  /** Splitting undoes rebuilding: parts that give a time value are its parts. */
  lemma SplitRebuild(p: Parts, d: int, q: Parts)
    requires ValidParts(p) && TimeFromParts(p) == Some(d)
    requires ValidParts(q) && TimeOf(q) == d
    ensures q == p
  {
    hide DayFromYear, IsLeap, MonthLength, MonthStart, WeekDay;
    PartsUnique(p, q);
  }

  // ----- Local time -----

  /** An instant in UTC that the offset function maps to local time d. */
  predicate Maps(tz: int -> int, d: int, off: int) {
    tz(d - 1000 * off) == off
  }

  ghost predicate TwoValued(tz: int -> int, x: int, y: int) {
    (forall t :: tz(t) == x || tz(t) == y) && -86_400 < x < 86_400 && -86_400 < y < 86_400
  }

  /** What the iteration promises if the offset has at most two values. */
  ghost predicate Utc(tz: int -> int, d: int, off: int) {
    forall x, y :: TwoValued(tz, x, y) ==> (if exists o :: Maps(tz, d, o) then Maps(tz, d, off) else off == if x > y then x else y)
  }

  lemma FixedPoint(tz: int -> int, d: int, off: int)
    requires Maps(tz, d, off)
    ensures Utc(tz, d, off)
  {}

  lemma TwoCycle(tz: int -> int, d: int, p: int, q: int)
    requires p != q && tz(d - 1000 * p) == q && tz(d - 1000 * q) == p
    ensures Utc(tz, d, if p > q then p else q)
  {
    forall x, y | TwoValued(tz, x, y)
      ensures (p == x && q == y) || (p == y && q == x)
      ensures forall o :: !Maps(tz, d, o)
    {
      assert (tz(d - 1000 * p) == x || tz(d - 1000 * p) == y) && (tz(d - 1000 * q) == x || tz(d - 1000 * q) == y);
      forall o ensures !Maps(tz, d, o) {
        assert tz(d - 1000 * o) == x || tz(d - 1000 * o) == y;
      }
    }
  }

  /** Three different values in a row are one too many. */
  lemma NotTwoValued(tz: int -> int, r: int, s: int, t: int)
    requires tz(r) != tz(s) && tz(s) != tz(t) && tz(r) != tz(t)
    ensures forall x, y :: !TwoValued(tz, x, y)
  {
    forall x, y ensures !TwoValued(tz, x, y) {
      assert TwoValued(tz, x, y) ==> (tz(r) == x || tz(r) == y) && (tz(s) == x || tz(s) == y) && (tz(t) == x || tz(t) == y);
    }
  }

  lemma NeverThere(tz: int -> int, t: int)
    requires tz(t) == 999_999_999
    ensures forall x, y :: !TwoValued(tz, x, y)
  {
    forall x, y ensures !TwoValued(tz, x, y) {
      assert TwoValued(tz, x, y) ==> tz(t) == x || tz(t) == y;
    }
  }

  /** The iteration ends at a fixed point or a two-cycle, in its third round at the latest. */
  method LocalOffset(tz: int -> int, d: int) returns (off: int, ghost rounds: nat)
    ensures Utc(tz, d, off)
    ensures forall x, y :: TwoValued(tz, x, y) ==> rounds <= 3
  {
    hide Utc, TwoValued;
    off := 0;
    var prev1, prev2 := 999_999_999, 0;
    var i := 0;
    while i < 4
      invariant 0 <= i <= 4
      invariant i == 0 ==> off == 0 && prev1 == 999_999_999
      invariant i == 1 ==> prev1 == 0
      invariant i >= 1 ==> off == tz(d - 1000 * prev1) && off != prev1
      invariant i >= 2 ==> prev1 == tz(d - 1000 * prev2) && off != prev2
      invariant i >= 3 ==> forall x, y :: !TwoValued(tz, x, y)
    {
      ghost var before := prev2;
      prev2 := prev1;
      prev1 := off;
      off := tz(d - 1000 * off);
      rounds := i + 1;
      if off == prev1 {
        FixedPoint(tz, d, off);
        return;
      } else if off == prev2 {
        if i == 0 {
          NeverThere(tz, d - 1000 * prev1);
          Vacuous(tz, d, if prev1 > off then prev1 else off);
        } else {
          TwoCycle(tz, d, prev1, off);
        }
        if prev1 > off { off := prev1; }
        return;
      }
      if i == 2 { NotTwoValued(tz, d - 1000 * before, d - 1000 * prev2, d - 1000 * prev1); }
      i := i + 1;
    }
    Vacuous(tz, d, off);
    rounds := 4;
  }

  lemma Vacuous(tz: int -> int, d: int, off: int)
    requires forall x, y :: !TwoValued(tz, x, y)
    ensures Utc(tz, d, off)
  {}
}
