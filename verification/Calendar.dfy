/** The engine's date: a signed count of microseconds from 2000-01-01, encoded by closed-form
    day counts and decoded by peeling 400-, 100-, 4- and 1-year blocks. The reference is the
    proleptic Gregorian calendar of section 3.2.1 of ISO 8601:2004, defined by counting. */
module Calendar {
  import Radix

  const UNITS_PER_DAY: int := 86400000000
  const CM_BASELINE_DAY: int := 730120
  const DAYS_1: int := 365
  const DAYS_4: int := DAYS_1 * 4 + 1
  const DAYS_100: int := DAYS_4 * 25 - 1
  const DAYS_400: int := DAYS_100 * 4 + 1
  const CM_MIN_YEAR: int := 1
  const CM_MAX_YEAR: int := 9999
  const CM_ALL_ZERO_DATETIME: int := -63113904000000000

  datatype Detail = Detail(year: nat, mon: nat, day: nat, hour: nat, min: nat, sec: nat,
                           millisec: nat, microsec: nat)

  const ALL_ZERO: Detail := Detail(0, 0, 0, 0, 0, 0, 0, 0)

  // ----- the calendar, by counting

  predicate IsLeap(y: int)
  {
    y % 4 == 0 && (y % 100 != 0 || y % 400 == 0)
  }

  function YearLength(y: int): int
  {
    if IsLeap(y) then 366 else 365
  }

  function MonthDays(y: int, m: nat): nat
    requires 1 <= m <= 12
  {
    if m == 2 then (if IsLeap(y) then 29 else 28)
    else if m == 4 || m == 6 || m == 9 || m == 11 then 30 else 31
  }

  /** The months of a year, from January on; February has a 29th day in every fourth year but
      not in the hundredth, unless it is the four-hundredth. */
  lemma MonthTable(y: int, m: nat)
    requires 1 <= m <= 12
    ensures var feb := if y % 400 == 0 || (y % 4 == 0 && y % 100 != 0) then 29 else 28;
            MonthDays(y, m) == [31, feb, 31, 30, 31, 30, 31, 31, 30, 31, 30, 31][m - 1]
  {
    var feb := if y % 400 == 0 || (y % 4 == 0 && y % 100 != 0) then 29 else 28;
    var table := [31, feb, 31, 30, 31, 30, 31, 31, 30, 31, 30, 31];
    assert m == 1 || m == 2 || m == 3 || m == 4 || m == 5 || m == 6
        || m == 7 || m == 8 || m == 9 || m == 10 || m == 11 || m == 12;
  }

  /** Days before January 1st of year y, counted year by year. */
  function YearStart(y: int): int
    requires y >= 1
    decreases y
  {
    if y == 1 then 0 else YearStart(y - 1) + YearLength(y - 1)
  }

  /** Days of year y before month m, counted month by month. */
  function MonthStart(y: int, m: nat): nat
    requires 1 <= m <= 13
  {
    if m == 1 then 0 else MonthStart(y, m - 1) + MonthDays(y, m - 1)
  }

  /** Counting 0001-01-01 as day 1. */
  function DayNumber(d: Detail): int
    requires d.year >= 1 && 1 <= d.mon <= 12
  {
    YearStart(d.year) + MonthStart(d.year, d.mon) + d.day
  }

  function TimeOfDay(d: Detail): int
  {
    (((d.hour * 60 + d.min) * 60 + d.sec) * 1000 + d.millisec) * 1000 + d.microsec
  }

  function Timestamp(d: Detail): int
    requires d.year >= 1 && 1 <= d.mon <= 12
  {
    (DayNumber(d) - CM_BASELINE_DAY) * UNITS_PER_DAY + TimeOfDay(d)
  }

  predicate ValidTime(d: Detail)
  {
    d.hour <= 23 && d.min <= 59 && d.sec <= 59 && d.millisec <= 999 && d.microsec <= 999
  }

  predicate ValidDate(d: Detail)
  {
    CM_MIN_YEAR <= d.year <= CM_MAX_YEAR && 1 <= d.mon <= 12 && 1 <= d.day <= MonthDays(d.year, d.mon)
  }

  predicate Valid(d: Detail)
  {
    ValidDate(d) && ValidTime(d)
  }

  /** The following calendar day. */
  function NextDay(d: Detail): Detail
    requires ValidDate(d)
  {
    if d.day < MonthDays(d.year, d.mon) then d.(day := d.day + 1)
    else if d.mon < 12 then d.(mon := d.mon + 1, day := 1)
    else d.(year := d.year + 1, mon := 1, day := 1)
  }

  predicate Earlier(a: Detail, b: Detail)
  {
    || a.year < b.year
    || (a.year == b.year && a.mon < b.mon)
    || (a.year == b.year && a.mon == b.mon && a.day < b.day)
    || (a.year == b.year && a.mon == b.mon && a.day == b.day && TimeOfDay(a) < TimeOfDay(b))
  }

  // ----- facts about the count

  /** days_before_year */
  function DaysBeforeYear(year: int): int
  {
    var y := year - 1;
    y * 365 + y / 4 - y / 100 + y / 400
  }

  /** The closed form counts the years' days. */
  lemma {:induction false} YearStartClosedForm(y: int)
    requires y >= 1
    ensures YearStart(y) == DaysBeforeYear(y)
    decreases y
  {
    if y > 1 {
      YearStartClosedForm(y - 1);
      hide IsLeap;
      Quotient(y - 1, 4);
      Quotient(y - 1, 100);
      Quotient(y - 1, 400);
      LeapIndicator(y - 1);
    }
  }

  lemma LeapIndicator(n: int)
    ensures YearLength(n) == 365 + Unit(n % 4 == 0) - Unit(n % 100 == 0) + Unit(n % 400 == 0)
  {
    if n % 100 == 0 { Radix.DivisionUnique(n, 4, 25 * (n / 100), 0); }
    if n % 400 == 0 { Radix.DivisionUnique(n, 100, 4 * (n / 400), 0); }
  }

  function Unit(b: bool): int
  {
    if b then 1 else 0
  }

  lemma YearStep(y: int)
    requires y >= 2
    ensures YearStart(y) == YearStart(y - 1) + YearLength(y - 1)
  {
  }

  lemma Quotient(n: int, k: int)
    requires k > 0
    ensures n / k == (n - 1) / k + Unit(n % k == 0)
  {
    var q, r := (n - 1) / k, (n - 1) % k;
    assert n == k * q + r + 1;
    if r == k - 1 {
      assert n == k * (q + 1) + 0;
      Radix.DivisionUnique(n, k, q + 1, 0);
    } else {
      Radix.DivisionUnique(n, k, q, r + 1);
    }
  }

  lemma {:induction false} YearStartMonotone(y: int, z: int)
    requires 1 <= y < z
    ensures YearStart(y) + YearLength(y) <= YearStart(z)
    decreases z - y
  {
    if y + 1 < z { YearStartMonotone(y + 1, z); }
  }

  lemma {:induction false} MonthStartMonotone(y: int, m: nat, n: nat)
    requires 1 <= m < n <= 13
    ensures MonthStart(y, m) + MonthDays(y, m) <= MonthStart(y, n)
    decreases n - m
  {
    if m + 1 < n { MonthStartMonotone(y, m + 1, n); }
  }

  lemma WholeYear(y: int)
    ensures MonthStart(y, 13) == YearLength(y)
  {
    var leap := YearLength(y) - 365;
    assert MonthStart(y, 1) == 0 && MonthStart(y, 2) == 31;
    assert MonthStart(y, 3) == 59 + leap;
    assert MonthStart(y, 5) == 120 + leap;
    assert MonthStart(y, 7) == 181 + leap;
    assert MonthStart(y, 9) == 243 + leap;
    assert MonthStart(y, 11) == 304 + leap;
  }

  lemma DayInYear(d: Detail)
    requires ValidDate(d)
    ensures YearStart(d.year) < DayNumber(d) <= YearStart(d.year) + YearLength(d.year)
  {
    WholeYear(d.year);
    MonthStartMonotone(d.year, d.mon, 13);
  }

  lemma TimeInDay(d: Detail)
    requires ValidTime(d)
    ensures 0 <= TimeOfDay(d) < UNITS_PER_DAY
  {
  }

  /** Day numbers follow the calendar: the day after has the next number. */
  lemma DayNumberFollowsCalendar(d: Detail)
    requires ValidDate(d)
    ensures DayNumber(NextDay(d)) == DayNumber(d) + 1
    ensures d.year < CM_MAX_YEAR || NextDay(d).year == d.year ==> ValidDate(NextDay(d))
  {
    if d.day == MonthDays(d.year, d.mon) && d.mon == 12 {
      WholeYear(d.year);
    }
  }

  /** The epoch is midnight of 2000-01-01. */
  lemma EpochIsZero(d: Detail)
    requires d.year == 2000 && d.mon == 1 && d.day == 1 && ValidTime(d)
    ensures Timestamp(d) == TimeOfDay(d)
  {
    hide YearStart;
    YearStartClosedForm(d.year);
  }

  lemma EarlierIsSmaller(a: Detail, b: Detail)
    requires Valid(a) && Valid(b) && Earlier(a, b)
    ensures Timestamp(a) < Timestamp(b)
  {
    hide YearStart, MonthStart, MonthDays, TimeOfDay;
    DayInYear(a);
    DayInYear(b);
    TimeInDay(a);
    TimeInDay(b);
    if a.year < b.year {
      YearStartMonotone(a.year, b.year);
    } else if a.mon < b.mon {
      MonthStartMonotone(a.year, a.mon, b.mon);
    }
  }

  lemma TimestampInjective(a: Detail, b: Detail)
    requires Valid(a) && Valid(b) && Timestamp(a) == Timestamp(b)
    ensures a == b
  {
    hide YearStart, MonthStart, Timestamp, MonthDays;
    if Earlier(a, b) { EarlierIsSmaller(a, b); }
    if Earlier(b, a) { EarlierIsSmaller(b, a); }
    SameTime(a, b);
  }

  lemma SameTime(a: Detail, b: Detail)
    requires ValidTime(a) && ValidTime(b) && TimeOfDay(a) == TimeOfDay(b)
    ensures a.hour == b.hour && a.min == b.min && a.sec == b.sec
    ensures a.millisec == b.millisec && a.microsec == b.microsec
  {
  }

  /** The range of the encoding; the all-zero sentinel lies below it. */
  lemma TimestampRange(d: Detail)
    requires Valid(d)
    ensures FIRST <= Timestamp(d) < LIMIT
    ensures Timestamp(d) != CM_ALL_ZERO_DATETIME
  {
    hide DayNumber, TimeOfDay, MonthDays;
    DayRange(d);
    TimeInDay(d);
  }

  lemma DayRange(d: Detail)
    requires ValidDate(d)
    ensures 1 <= DayNumber(d) <= 3652059
  {
    hide YearStart, MonthStart, IsLeap, MonthDays;
    DayInYear(d);
    YearBounds(d.year, 1, 10000);
  }

  /** The years before year 10000 have 3652059 days. */
  lemma YearBounds(y: int, first: int, limit: int)
    requires y >= 1 && first == 1 && limit == 10000
    ensures YearStart(y) >= 0
    ensures if y < limit then YearStart(y) + YearLength(y) <= 3652059 else YearStart(y) >= 3652059
  {
    hide YearStart, YearLength;
    YearStartClosedForm(first);
    YearStartClosedForm(limit);
    if y > first { YearStartMonotone(first, y); }
    if y < limit { YearStartMonotone(y, limit); }
    if y > limit { YearStartMonotone(limit, y); }
    LengthPositive(first);
    LengthPositive(limit);
  }

  lemma LengthPositive(y: int)
    ensures YearLength(y) > 0
  {
  }

  /** 0001-01-01 and 10000-01-01. */
  const FIRST: int := (1 - CM_BASELINE_DAY) * UNITS_PER_DAY
  const LIMIT: int := (3652060 - CM_BASELINE_DAY) * UNITS_PER_DAY

  /** The sentinel is where the year 0, a leap year, would begin. */
  lemma SentinelIsYearZero()
    ensures IsLeap(0) && CM_ALL_ZERO_DATETIME == FIRST - YearLength(0) * UNITS_PER_DAY
  {
  }

  // ----- encoding

  method TotalDays(d: Detail) returns (total: int)
    requires d.year >= 1 && 1 <= d.mon <= 12
    ensures total == DayNumber(d) - CM_BASELINE_DAY
  {
    YearStartClosedForm(d.year);
    total := DaysBeforeYear(d.year) - CM_BASELINE_DAY;
    for i := 0 to d.mon - 1
      invariant total == YearStart(d.year) - CM_BASELINE_DAY + MonthStart(d.year, i + 1)
    {
      total := total + MonthDays(d.year, i + 1);
    }
    total := total + d.day;
  }

  method EncodeDate(d: Detail) returns (date: int)
    requires d == ALL_ZERO || (&& CM_MIN_YEAR <= d.year <= CM_MAX_YEAR && 1 <= d.mon <= 12
                               && 1 <= d.day <= 31 && ValidTime(d))
    ensures d == ALL_ZERO ==> date == CM_ALL_ZERO_DATETIME
    ensures d != ALL_ZERO ==> date == Timestamp(d)
  {
    if d == ALL_ZERO { return CM_ALL_ZERO_DATETIME; }
    var total := TotalDays(d);
    date := total * 86400;
    date := date + d.hour * 3600;
    date := date + d.min * 60;
    date := date + d.sec;
    date := date * 1000 + d.millisec;
    date := date * 1000 + d.microsec;
  }

  // ----- decoding

  /** A year 400a + 100b + 4c + d after year 1 starts after whole blocks. */
  lemma BlockStart(y: int, a: nat, b: nat, c: nat, d: nat)
    requires b <= 3 && c <= 24 && d <= 3 && y == 1 + 400 * a + 100 * b + 4 * c + d
    ensures YearStart(y) == DAYS_400 * a + DAYS_100 * b + DAYS_4 * c + DAYS_1 * d
  {
    hide YearStart;
    YearStartClosedForm(y);
    assert (y - 1) / 4 == 100 * a + 25 * b + c by { Radix.DivisionUnique(y - 1, 4, 100 * a + 25 * b + c, d); }
    assert (y - 1) / 100 == 4 * a + b by { Radix.DivisionUnique(y - 1, 100, 4 * a + b, 4 * c + d); }
    assert (y - 1) / 400 == a by { Radix.DivisionUnique(y - 1, 400, a, 100 * b + 4 * c + d); }
  }

  method DecodeLeap(days0: int) returns (year: int, days: int)
    requires days0 >= 0
    ensures year >= 1 && YearStart(year) + days == days0
    ensures 0 <= days <= 365
  {
    hide YearStart;
    year, days := 1, days0;
    ghost var a: nat, b: nat, c: nat, d: nat := 0, 0, 0, 0;
    while days >= DAYS_400
      invariant year == 1 + 400 * a && days0 == DAYS_400 * a + days && days >= 0
    {
      year, days, a := year + 400, days - DAYS_400, a + 1;
    }
    var hundredCount := 1;
    while days >= DAYS_100 && hundredCount < 4
      invariant 1 <= hundredCount <= 4 && b == hundredCount - 1
      invariant year == 1 + 400 * a + 100 * b && days0 == DAYS_400 * a + DAYS_100 * b + days
      invariant 0 <= days < DAYS_400 - DAYS_100 * b
    {
      year, days, hundredCount, b := year + 100, days - DAYS_100, hundredCount + 1, b + 1;
    }
    while days >= DAYS_4
      invariant year == 1 + 400 * a + 100 * b + 4 * c
      invariant days0 == DAYS_400 * a + DAYS_100 * b + DAYS_4 * c + days
      invariant 0 <= days <= DAYS_100 - DAYS_4 * c
    {
      year, days, c := year + 4, days - DAYS_4, c + 1;
    }
    while days > DAYS_1
      invariant year == 1 + 400 * a + 100 * b + 4 * c + d
      invariant days0 == DAYS_400 * a + DAYS_100 * b + DAYS_4 * c + DAYS_1 * d + days
      invariant 0 <= days < DAYS_4 - DAYS_1 * d && d <= 3
    {
      if IsLeap(year) { days := days - 1; }
      year, days, d := year + 1, days - DAYS_1, d + 1;
    }
    BlockStart(year, a, b, c, d);
  }

  method DecodeDate(date: int) returns (d: Detail)
    requires date == CM_ALL_ZERO_DATETIME || FIRST <= date < LIMIT
    ensures date == CM_ALL_ZERO_DATETIME ==> d == ALL_ZERO
    ensures date != CM_ALL_ZERO_DATETIME ==> Valid(d) && Timestamp(d) == date
  {
    if date == CM_ALL_ZERO_DATETIME { return ALL_ZERO; }
    // division truncates toward zero
    var day := if date >= 0 then date / UNITS_PER_DAY else -((-date) / UNITS_PER_DAY);
    var time := date - day * UNITS_PER_DAY;
    if time < 0 { time, day := time + UNITS_PER_DAY, day - 1; }
    var microsec, millis := time % 1000, time / 1000;
    var millisec, secs := millis % 1000, millis / 1000;
    var hour := secs / 3600;
    var min := (secs - hour * 3600) / 60;
    var sec := secs - hour * 3600 - min * 60;
    var year, mon, dom := DecodeDays(day + CM_BASELINE_DAY);
    d := Detail(year, mon, dom, hour, min, sec, millisec, microsec);
  }

  lemma FirstYear(y: int)
    requires y == 1
    ensures YearStart(y) == 0
  {
  }

  method DecodeDays(total: int) returns (year: nat, mon: nat, day: nat)
    requires 1 <= total <= 3652059
    ensures 1 <= year <= 9999 && 1 <= mon <= 12 && 1 <= day <= MonthDays(year, mon)
    ensures YearStart(year) + MonthStart(year, mon) + day == total
  {
    hide YearStart;
    var y, days := DecodeLeap(total);
    YearBounds(y, 1, 10000);
    if y > 1 {
      YearStep(y);
      YearBounds(y - 1, 1, 10000);
    } else {
      FirstYear(y);
    }
    if days == 0 {
      year, mon, day := y - 1, 12, 31;
      WholeYear(y - 1);
    } else {
      WholeYear(y);
      var i := 0;
      ghost var all := days;
      while days > MonthDays(y, i + 1)
        invariant 0 <= i < 12 && days >= 1
        invariant MonthStart(y, i + 1) + days == all
      {
        assert MonthStart(y, i + 2) + (days - MonthDays(y, i + 1)) == all;
        days := days - MonthDays(y, i + 1);
        i := i + 1;
      }
      year, mon, day := y, i + 1, days;
    }
  }

  /** Decoding inverts encoding on every valid date and on the all-zero date. */
  method DecodeAfterEncode(d: Detail) returns (d': Detail)
    requires Valid(d) || d == ALL_ZERO
    ensures d' == d
  {
    var date := EncodeDate(d);
    if d != ALL_ZERO { TimestampRange(d); }
    d' := DecodeDate(date);
    if d != ALL_ZERO { TimestampInjective(d, d'); }
  }

  /** Encoding inverts decoding on every microsecond of the years 1 to 9999. */
  method EncodeAfterDecode(date: int) returns (date': int)
    requires date == CM_ALL_ZERO_DATETIME || FIRST <= date < LIMIT
    ensures date' == date
  {
    var d := DecodeDate(date);
    date' := EncodeDate(d);
  }
}
