// The date and time side of the DS3231 real-time-clock driver: the BCD
// coding of the clock registers and `DateTime`, a date-time value of six
// `uint8_t` fields (year of the century from 2000, month, date, hour, minute,
// second) with its conversions to and from seconds since 2000-01-01 00:00:00,
// its constructor from the compiler's `__DATE__`/`__TIME__` strings and its
// "YY-MM-DD HH:MM:SS" text. On the AVR `int` is 16 bits wide and `long` 32;
// arithmetic that leaves those widths wraps around in the model.
module DS3231Time {
  import opened CInt
  import FmtUtil

  const SECONDS_PER_DAY: int := 86400
  /** `daysInMonth`: the lengths of the months of a common year. */
  const DAYS_IN_MONTH: seq<int> := [31, 28, 31, 30, 31, 30, 31, 31, 30, 31, 30, 31]

  // ----------- BCD -----------

  /** `bcd2bin(val)`: `val - 6 * (val >> 4)`, ten for each unit of the upper nibble plus the lower nibble. */
  function Bcd2Bin(val: int): (r: int)
    requires IsUInt8(val)
    ensures IsUInt8(r) && r == 10 * (val / 16) + val % 16
  {
    val - 6 * (val / 16)
  }

  /** `bin2bcd(val)`: `val + 6 * (val / 10)` as `uint8_t`; for a value below 100, its tens and units as nibbles. */
  function Bin2Bcd(val: int): (r: int)
    requires IsUInt8(val)
    ensures IsUInt8(r)
    ensures val <= 99 ==> r / 16 == val / 10 && r % 16 == val % 10
  {
    ToUInt8(val + 6 * (val / 10))
  }

  /** A byte whose two nibbles are decimal digits. */
  predicate IsBcd(b: int)
  {
    IsUInt8(b) && b / 16 <= 9 && b % 16 <= 9
  }

  /** Every value below 100 is coded as BCD and decoded back. */
  lemma BcdRoundTrip(v: int)
    requires 0 <= v <= 99
    ensures IsBcd(Bin2Bcd(v)) && Bcd2Bin(Bin2Bcd(v)) == v
  {
    var b := Bin2Bcd(v);
    assert b == 16 * (b / 16) + b % 16;
  }

  /** Every BCD byte is decoded to a value below 100 and coded back. */
  lemma BinRoundTrip(b: int)
    requires IsBcd(b)
    ensures Bcd2Bin(b) <= 99 && Bin2Bcd(Bcd2Bin(b)) == b
  {
    var v := Bcd2Bin(b);
    assert v / 10 == b / 16 && v % 10 == b % 16;
    assert Bin2Bcd(v) == 16 * (v / 10) + v % 10;
  }

  // ----------- Days since 2000-01-01 -----------

  /** The years of the century with a 29th of February (2000 included). */
  predicate IsLeap(y: int)
  {
    y % 4 == 0
  }

  /** The number of days of month m of year y. */
  function MonthLength(y: int, m: int): (r: int)
    requires 1 <= m <= 12
    ensures 28 <= r <= 31
  {
    DAYS_IN_MONTH[m - 1] + (if m == 2 && IsLeap(y) then 1 else 0)
  }

  /** The reference count: days from 2000-01-01 to January 1st of year y, year by year. */
  function YearStart(y: nat): nat
  {
    if y == 0 then 0 else YearStart(y - 1) + 365 + (if IsLeap(y - 1) then 1 else 0)
  }

  /** The reference count: days from January 1st to the first of month m of year y, month by month. */
  function MonthStart(y: int, m: int): nat
    requires 1 <= m <= 13
  {
    if m == 1 then 0 else MonthStart(y, m - 1) + MonthLength(y, m - 1)
  }

  /** The reference day number of a date: days since 2000-01-01. */
  function DayNumber(y: nat, m: int, d: int): int
    requires 1 <= m <= 12
  {
    YearStart(y) + MonthStart(y, m) + d - 1
  }

  /** A calendar date of the century: month 1..12 and a date that exists in that month. */
  predicate IsDate(y: int, m: int, d: int)
  {
    0 <= y <= 99 && 1 <= m <= 12 && 1 <= d <= MonthLength(y, m)
  }

  /** What the loop of `date2days` adds to d: the lengths of the months before m in a common year. */
  function DaysBefore(m: int): (r: nat)
    requires 0 <= m <= 13
  {
    if m <= 1 then 0 else DaysBefore(m - 1) + DAYS_IN_MONTH[m - 2]
  }

  /**
   * `date2days(y, m, d)` as computed: the 16-bit `int` and `uint16_t` arithmetic of
   * `days + 365 * y + (y + 3) / 4 - 1` wraps modulo 2^16.
   */
  function Days(y: int, m: int, d: int): (r: int)
    requires IsUInt8(y) && 0 <= m <= 13 && IsUInt8(d)
    ensures IsUInt16(r)
  {
    ToUInt16(d + DaysBefore(m) + (if m > 2 && y % 4 == 0 then 1 else 0) + 365 * y + (y + 3) / 4 - 1)
  }

  /** The closed form of `date2days`: the leap years before y are the multiples of 4 below it. */
  lemma {:induction false} YearStartClosed(y: nat)
    ensures YearStart(y) == 365 * y + (y + 3) / 4
  {
    if y > 0 {
      YearStartClosed(y - 1);
    }
  }

  /** Month by month, the days before month m are the common-year days plus the leap day after February. */
  lemma {:induction false} MonthStartClosed(y: int, m: int)
    requires 1 <= m <= 13
    ensures MonthStart(y, m) == DaysBefore(m) + (if m > 2 && IsLeap(y) then 1 else 0)
  {
    if m > 1 {
      MonthStartClosed(y, m - 1);
    }
  }

  /** `date2days` counts the days since 2000-01-01 for every date of 2000..2099. */
  lemma DaysCount(y: int, m: int, d: int)
    requires IsDate(y, m, d)
    ensures Days(y, m, d) == DayNumber(y, m, d)
  {
    YearStartClosed(y);
    MonthStartClosed(y, m);
    assert MonthStart(y, m) <= 335 by { MonthStartBound(y, m); }
  }

  lemma {:induction false} MonthStartBound(y: int, m: int)
    requires 1 <= m <= 13
    ensures MonthStart(y, m) <= 31 * (m - 1)
  {
    if m > 1 {
      MonthStartBound(y, m - 1);
    }
  }

  /** `date2days(y, m, d)`: d plus the month lengths before m, the leap day, 365 per year and a day per leap year before y. */
  method Date2Days(y: int, m: int, d: int) returns (days: int)
    requires IsUInt8(y) && 0 <= m <= 13 && IsUInt8(d)
    ensures days == Days(y, m, d)
  {
    days := d;
    var i := 1;
    while i < m
      invariant 1 <= i <= 13 && (i <= m || i == 1)
      invariant days == d + DaysBefore(i)
    {
      days := days + DAYS_IN_MONTH[i - 1];
      i := i + 1;
    }
    assert DaysBefore(i) == DaysBefore(m);
    if m > 2 && y % 4 == 0 {
      days := days + 1;
    }
    days := ToUInt16(days + 365 * y + (y + 3) / 4 - 1);
  }

  /** `time2long(days, h, m, s)`: `((days * 24L + h) * 60 + m) * 60 + s`, wrapping in the 32-bit `long`. */
  function Time2Long(days: int, h: int, m: int, s: int): (r: int)
    requires IsUInt16(days) && IsUInt8(h) && IsUInt8(m) && IsUInt8(s)
    ensures IsInt32(r) && (((days * 24 + h) * 60 + m) * 60 + s - r) % TWO32 == 0
  {
    ToInt32(((days * 24 + h) * 60 + m) * 60 + s)
  }

  // ----------- DateTime -----------

  /** `DateTime`: year of the century, month, date, hour, minute and second. */
  datatype DateTime = DateTime(y: int, m: int, d: int, hh: int, mm: int, ss: int)

  /** The all-zero date-time, which `operator bool` reports as unset: what `DateTime()` is documented to give. */
  const UNSET: DateTime := DateTime(0, 0, 0, 0, 0, 0)

  /** The six fields are `uint8_t`. */
  predicate Bytes(dt: DateTime)
  {
    IsUInt8(dt.y) && IsUInt8(dt.m) && IsUInt8(dt.d) && IsUInt8(dt.hh) && IsUInt8(dt.mm) && IsUInt8(dt.ss)
  }

  /** `operator bool`: some field is non-zero. */
  predicate IsSet(dt: DateTime)
  {
    dt.y != 0 || dt.m != 0 || dt.d != 0 || dt.hh != 0 || dt.mm != 0 || dt.ss != 0
  }

  /** A date of 2000..2099 and a time of day on the 24-hour clock. */
  predicate IsValid(dt: DateTime)
  {
    IsDate(dt.y, dt.m, dt.d) && 0 <= dt.hh < 24 && 0 <= dt.mm < 60 && 0 <= dt.ss < 60
  }

  /** The reference meaning of a date-time: seconds since 2000-01-01 00:00:00. */
  function Seconds(dt: DateTime): int
    requires IsValid(dt)
  {
    DayNumber(dt.y, dt.m, dt.d) * SECONDS_PER_DAY + dt.hh * 3600 + dt.mm * 60 + dt.ss
  }

  /** What `get()` returns: `time2long(date2days(y, m, d), hh, mm, ss)`. */
  function Long(dt: DateTime): (r: int)
    requires Bytes(dt) && dt.m <= 13
    ensures IsInt32(r)
  {
    Time2Long(Days(dt.y, dt.m, dt.d), dt.hh, dt.mm, dt.ss)
  }

  /** `get()`: the date-time as seconds since 2000-01-01 in a 32-bit `long`. */
  method Get(dt: DateTime) returns (t: int)
    requires Bytes(dt) && dt.m <= 13
    ensures t == Long(dt)
  {
    var days := Date2Days(dt.y, dt.m, dt.d);
    t := Time2Long(days, dt.hh, dt.mm, dt.ss);
  }

  /** `get()` counts the seconds since 2000-01-01 of every valid date-time up to 2068-01-19 03:14:07. */
  lemma LongIsSeconds(dt: DateTime)
    requires IsValid(dt) && Seconds(dt) <= 0x7fff_ffff
    ensures Long(dt) == Seconds(dt)
  {
    DaysCount(dt.y, dt.m, dt.d);
  }

  /** One second later the 32-bit `long` of `get()` wraps to the most negative value. */
  lemma LongWrapsIn2068(dt: DateTime)
    requires dt == DateTime(68, 1, 19, 3, 14, 8)
    ensures IsValid(dt) && Seconds(dt) == 0x8000_0000 && Long(dt) == -0x8000_0000
  {
    DaysCount(68, 1, 19);
    YearStartClosed(68);
  }

  /** YearStart grows by the length of each year. */
  lemma {:induction false} YearStartMonotone(a: nat, b: nat)
    requires a <= b
    ensures YearStart(a) + 365 * (b - a) <= YearStart(b)
  {
    if a < b {
      YearStartMonotone(a, b - 1);
    }
  }

  /** MonthStart grows by the length of each month. */
  lemma {:induction false} MonthStartMonotone(y: int, a: int, b: int)
    requires 1 <= a <= b <= 13
    ensures MonthStart(y, a) + 28 * (b - a) <= MonthStart(y, b)
  {
    if a < b {
      MonthStartMonotone(y, a, b - 1);
    }
  }

  /** The months of a year add up to the year: 365 days, 366 in a leap year. */
  lemma YearLength(y: int)
    ensures MonthStart(y, 13) == 365 + (if IsLeap(y) then 1 else 0)
  {
    MonthStartClosed(y, 13);
    assert DaysBefore(2) == 31 && DaysBefore(3) == 59 && DaysBefore(4) == 90 && DaysBefore(5) == 120;
    assert DaysBefore(6) == 151 && DaysBefore(7) == 181 && DaysBefore(8) == 212 && DaysBefore(9) == 243;
    assert DaysBefore(10) == 273 && DaysBefore(11) == 304 && DaysBefore(12) == 334 && DaysBefore(13) == 365;
  }

  /** Two dates with the same day number are the same date. */
  lemma DayNumberInjective(y1: int, m1: int, d1: int, y2: int, m2: int, d2: int)
    requires IsDate(y1, m1, d1) && IsDate(y2, m2, d2)
    requires DayNumber(y1, m1, d1) == DayNumber(y2, m2, d2)
    ensures y1 == y2 && m1 == m2 && d1 == d2
  {
    SameYear(y1, m1, d1, y2, m2, d2);
    SameMonth(y1, m1, d1, m2, d2);
  }

  lemma SameYear(y1: int, m1: int, d1: int, y2: int, m2: int, d2: int)
    requires IsDate(y1, m1, d1) && IsDate(y2, m2, d2)
    requires DayNumber(y1, m1, d1) == DayNumber(y2, m2, d2)
    ensures y1 == y2
  {
    YearBounds(y1, m1, d1);
    YearBounds(y2, m2, d2);
    if y1 < y2 {
      YearStartMonotone(y1 + 1, y2);
    } else if y2 < y1 {
      YearStartMonotone(y2 + 1, y1);
    }
  }

  lemma SameMonth(y: int, m1: int, d1: int, m2: int, d2: int)
    requires IsDate(y, m1, d1) && IsDate(y, m2, d2)
    requires DayNumber(y, m1, d1) == DayNumber(y, m2, d2)
    ensures m1 == m2 && d1 == d2
  {
    if m1 != m2 {
      var lo, hi := if m1 < m2 then m1 else m2, if m1 < m2 then m2 else m1;
      var dlo, dhi := if m1 < m2 then d1 else d2, if m1 < m2 then d2 else d1;
      MonthBounds(y, lo, dlo);
      MonthBounds(y, hi, dhi);
      MonthStartMonotone(y, lo + 1, hi);
    }
  }

  /** A date's day number lies in its year. */
  lemma YearBounds(y: int, m: int, d: int)
    requires IsDate(y, m, d)
    ensures YearStart(y) <= DayNumber(y, m, d) < YearStart(y + 1)
  {
    MonthBounds(y, m, d);
    MonthStartMonotone(y, m + 1, 13);
    YearLength(y);
  }

  /** A date's day of the year lies in its month. */
  lemma MonthBounds(y: int, m: int, d: int)
    requires IsDate(y, m, d)
    ensures MonthStart(y, m) <= DayNumber(y, m, d) - YearStart(y) < MonthStart(y, m + 1)
  {
  }

  /** Two valid date-times with the same count of seconds are equal. */
  lemma SecondsInjective(a: DateTime, b: DateTime)
    requires IsValid(a) && IsValid(b) && Seconds(a) == Seconds(b)
    ensures a == b
  {
    var ta := a.hh * 3600 + a.mm * 60 + a.ss;
    var tb := b.hh * 3600 + b.mm * 60 + b.ss;
    var da, db := DayNumber(a.y, a.m, a.d), DayNumber(b.y, b.m, b.d);
    assert 0 <= ta < SECONDS_PER_DAY && 0 <= tb < SECONDS_PER_DAY;
    assert da == db && ta == tb;
    DayNumberInjective(a.y, a.m, a.d, b.y, b.m, b.d);
  }

  /** Splitting t >= 0 into seconds, minutes, hours and days gives t back. */
  lemma SplitSeconds(t: int)
    requires t >= 0
    ensures ((t / 60 / 60 / 24 * 24 + t / 60 / 60 % 24) * 60 + t / 60 % 60) * 60 + t % 60 == t
    ensures t / 60 / 60 / 24 * SECONDS_PER_DAY + t / 60 / 60 % 24 * 3600 + t / 60 % 60 * 60 + t % 60 == t
  {
    var t1 := t / 60;
    var t2 := t1 / 60;
    assert t == t1 * 60 + t % 60;
    assert t1 == t2 * 60 + t1 % 60;
    assert t2 == t2 / 24 * 24 + t2 % 24;
  }

  /** A valid date-time whose fields are those of the split of t counts t seconds. */
  lemma SecondsOfFields(t: int, dt: DateTime)
    requires t >= 0 && IsValid(dt)
    requires DayNumber(dt.y, dt.m, dt.d) == t / 60 / 60 / 24
    requires dt.hh == t / 60 / 60 % 24 && dt.mm == t / 60 % 60 && dt.ss == t % 60
    ensures Seconds(dt) == t
  {
    SplitSeconds(t);
  }

  /** For t >= 0 the truncating divisions and conversions of `DateTime(long t)` are plain ones. */
  lemma ClockFields(t: int)
    requires 0 <= t <= 0x7fff_ffff
    ensures ToUInt8(Rem(t, 60)) == t % 60 && Div(t, 60) == t / 60
    ensures ToUInt8(Rem(t / 60, 60)) == t / 60 % 60 && Div(t / 60, 60) == t / 60 / 60
    ensures ToUInt8(Rem(t / 60 / 60, 24)) == t / 60 / 60 % 24
    ensures ToUInt16(Div(t / 60 / 60, 24)) == t / 60 / 60 / 24 <= 24855
  {
    DivByPositive(t, 60);
    DivByPositive(t / 60, 60);
    DivByPositive(t / 60 / 60, 24);
  }

  /** The divisions of `DateTime(long t)`: second, minute and hour as `uint8_t` and the days as `uint16_t`. */
  method SplitClock(t: int) returns (ss: int, mm: int, hh: int, days: int)
    requires IsInt32(t)
    ensures IsUInt8(ss) && IsUInt8(mm) && IsUInt8(hh) && days == ToUInt16(Div(Div(Div(t, 60), 60), 24))
    ensures t >= 0 ==> ss == t % 60 && mm == t / 60 % 60 && hh == t / 60 / 60 % 24 && days == t / 60 / 60 / 24 <= 24855
  {
    ss := ToUInt8(Rem(t, 60));
    var t1 := Div(t, 60);
    mm := ToUInt8(Rem(t1, 60));
    var t2 := Div(t1, 60);
    hh := ToUInt8(Rem(t2, 24));
    days := ToUInt16(Div(t2, 24));
    if t >= 0 {
      ClockFields(t);
    }
  }

  /** The first loop of `DateTime(long t)`: whole years are counted off the day count. */
  method CountYears(days0: int) returns (y: int, days: int, leap: bool)
    requires IsUInt16(days0)
    ensures 0 <= y <= 179 && leap == IsLeap(y)
    ensures 0 <= days < 365 + (if leap then 1 else 0) && YearStart(y) + days == days0
  {
    days := days0;
    y := 0;
    while true
      invariant 0 <= y && 0 <= days && YearStart(y) + days == days0
      decreases days
    {
      leap := y % 4 == 0;
      if days < 365 + (if leap then 1 else 0) {
        break;
      }
      days := days - (365 + (if leap then 1 else 0));
      y := y + 1;
    }
    YearStartClosed(y);
  }

  /** The second loop of `DateTime(long t)`: whole months are counted off the day of the year. */
  method CountMonths(y: int, leap: bool, doy: int) returns (m: int, days: int)
    requires leap == IsLeap(y) && 0 <= doy < 365 + (if leap then 1 else 0)
    ensures 1 <= m <= 12 && 0 <= days < MonthLength(y, m) && MonthStart(y, m) + days == doy
  {
    YearLength(y);
    days := doy;
    m := 1;
    while true
      invariant 1 <= m <= 12 && 0 <= days && MonthStart(y, m) + days == doy
      invariant days < MonthStart(y, 13) - MonthStart(y, m)
      decreases 12 - m
    {
      var daysPerMonth := DAYS_IN_MONTH[m - 1];
      if leap && m == 2 {
        daysPerMonth := daysPerMonth + 1;
      }
      if days < daysPerMonth {
        break;
      }
      days := days - daysPerMonth;
      m := m + 1;
    }
  }

  /**
   * `DateTime(long t)`: seconds, minutes and hours by truncating division, the days as
   * `uint16_t`, then whole years and whole months are counted off the days. Whatever t,
   * the result is a date of the 16-bit day count; for t >= 0 it is the valid date-time
   * whose count of seconds is t.
   */
  method FromSeconds(t: int) returns (dt: DateTime)
    requires IsInt32(t)
    ensures Bytes(dt) && 1 <= dt.m <= 12 && 1 <= dt.d <= MonthLength(dt.y, dt.m)
    ensures DayNumber(dt.y, dt.m, dt.d) == ToUInt16(Div(Div(Div(t, 60), 60), 24))
    ensures t >= 0 ==> IsValid(dt) && Seconds(dt) == t
  {
    var ss, mm, hh, days := SplitClock(t);
    var y, leap;
    y, days, leap := CountYears(days);
    var m;
    m, days := CountMonths(y, leap, days);
    dt := DateTime(y, m, days + 1, hh, mm, ss);
    if t >= 0 {
      YearStartClosed(y);
      SecondsOfFields(t, dt);
    }
  }

  // ----------- The compiler's date and time -----------

  /** `conv2d(p)`: two characters as a number; a first character that is not a digit counts as 0. */
  function Conv2d(c0: char, c1: char): (r: int)
    ensures IsUInt8(r)
    ensures FmtUtil.IsDigit(c0) && FmtUtil.IsDigit(c1) ==> r == 10 * FmtUtil.DigitValue(c0) + FmtUtil.DigitValue(c1)
    ensures !FmtUtil.IsDigit(c0) && FmtUtil.IsDigit(c1) ==> r == FmtUtil.DigitValue(c1)
  {
    var v := if '0' <= c0 <= '9' then c0 as int - '0' as int else 0;
    ToUInt8(10 * v + c1 as int - '0' as int)
  }

  /** The month names `__DATE__` starts with. */
  const MONTH_NAMES: seq<string> :=
    ["Jan", "Feb", "Mar", "Apr", "May", "Jun", "Jul", "Aug", "Sep", "Oct", "Nov", "Dec"]

  /**
   * The `switch` on the month name: the first letter and, where it is shared, the second
   * or third. A first letter outside the names leaves `m` as it was, m0.
   */
  function ParseMonth(date: seq<char>, m0: int): int
    requires |date| >= 3
  {
    match date[0]
    case 'J' => if date[1] == 'a' then 1 else if date[2] == 'n' then 6 else 7
    case 'F' => 2
    case 'A' => if date[2] == 'r' then 4 else 8
    case 'M' => if date[2] == 'r' then 3 else 5
    case 'S' => 9
    case 'O' => 10
    case 'N' => 11
    case 'D' => 12
    case _ => m0
  }

  /** Each of the twelve month names is parsed as its month. */
  lemma MonthNamesParsed(date: seq<char>, i: int, m0: int)
    requires 0 <= i < 12 && |date| >= 3 && date[..3] == MONTH_NAMES[i]
    ensures ParseMonth(date, m0) == i + 1
  {
    assert date[0] == MONTH_NAMES[i][0] && date[1] == MONTH_NAMES[i][1] && date[2] == MONTH_NAMES[i][2];
  }

  /**
   * `DateTime(date, time)` from `__DATE__` ("Mmm dd yyyy") and `__TIME__` ("hh:mm:ss"):
   * the year from the last two digits of the year, the date from positions 4 and 5, the
   * time from positions 0, 3 and 6. m0 is the prior value of the month field.
   */
  function FromCompiler(date: seq<char>, time: seq<char>, m0: int): (dt: DateTime)
    requires |date| >= 11 && |time| >= 8
    ensures IsUInt8(m0) ==> Bytes(dt)
  {
    DateTime(Conv2d(date[9], date[10]), ParseMonth(date, m0), Conv2d(date[4], date[5]),
             Conv2d(time[0], time[1]), Conv2d(time[3], time[4]), Conv2d(time[6], time[7]))
  }

  /** A digit character for each value 0..9. */
  predicate Digits(s: seq<char>, ks: set<int>)
  {
    forall k :: k in ks ==> 0 <= k < |s| && FmtUtil.IsDigit(s[k])
  }

  /** The value of the two characters at k and k + 1, a leading space counting as 0. */
  function Pair(s: seq<char>, k: int): int
    requires 0 <= k && k + 1 < |s| && FmtUtil.IsDigit(s[k + 1]) && (s[k] == ' ' || FmtUtil.IsDigit(s[k]))
  {
    (if s[k] == ' ' then 0 else 10 * FmtUtil.DigitValue(s[k])) + FmtUtil.DigitValue(s[k + 1])
  }

  /**
   * For the strings the compiler writes (a month name, the date as two digits or a space
   * and a digit, the year in digits, the time as "hh:mm:ss"), every field is the number
   * its characters spell.
   */
  lemma CompilerStrings(date: seq<char>, time: seq<char>, i: int, m0: int)
    requires |date| >= 11 && |time| >= 8 && 0 <= i < 12 && date[..3] == MONTH_NAMES[i]
    requires Digits(date, {5, 9, 10}) && (date[4] == ' ' || FmtUtil.IsDigit(date[4]))
    requires Digits(time, {0, 1, 3, 4, 6, 7})
    ensures FromCompiler(date, time, m0) ==
      DateTime(Pair(date, 9), i + 1, Pair(date, 4), Pair(time, 0), Pair(time, 3), Pair(time, 6))
  {
    MonthNamesParsed(date, i, m0);
    assert 9 in {5, 9, 10} && 10 in {5, 9, 10} && 5 in {5, 9, 10};
    assert 0 in {0, 1, 3, 4, 6, 7} && 1 in {0, 1, 3, 4, 6, 7} && 3 in {0, 1, 3, 4, 6, 7};
    assert 4 in {0, 1, 3, 4, 6, 7} && 6 in {0, 1, 3, 4, 6, 7} && 7 in {0, 1, 3, 4, 6, 7};
  }

  /** The example of the source: "Dec 26 2009" and "12:34:56" give 09-12-26 12:34:56. */
  lemma CompilerExample(date: seq<char>, time: seq<char>, m0: int)
    requires date == "Dec 26 2009" && time == "12:34:56"
    ensures FromCompiler(date, time, m0) == DateTime(9, 12, 26, 12, 34, 56)
  {
  }

  // ----------- "YY-MM-DD HH:MM:SS" -----------

  /** The two characters a field value is shown as: its two digits below 100, "99" above. */
  function Field(v: int): (r: seq<char>)
    requires IsUInt8(v)
    ensures |r| == 2
  {
    if v <= 99 then [FmtUtil.DigitChar(v / 10), FmtUtil.DigitChar(v % 10)] else "99"
  }

  /** `formatDecimal(v, p, 2, FMT_ZERO)` writes the field of v: a leading zero below 10, the overflow fill above 99. */
  lemma FieldIsFormatted(v: int)
    requires IsUInt8(v)
    ensures FmtUtil.Formatted(v, 2, FmtUtil.Decode(FmtUtil.FMT_ZERO)) == Field(v)
  {
    var f := FmtUtil.Decode(FmtUtil.FMT_ZERO);
    assert f == FmtUtil.Format(0, false, true, false);
    assert FmtUtil.Run(0, v, 2, f) == FmtUtil.FmtState(v, ' ', 0, []);
    var st1 := FmtUtil.Run(1, v, 2, f);
    assert st1 == FmtUtil.FmtState(v / 10, ' ', 1, [FmtUtil.DigitChar(v % 10)]);
    var st2 := FmtUtil.Run(2, v, 2, f);
    assert st2 == FmtUtil.FmtState(v / 10 / 10, ' ', 2, [FmtUtil.DigitChar(v / 10 % 10), FmtUtil.DigitChar(v % 10)]);
  }

  /** The text the buffer of `DateTime::Buf` holds: "YY-MM-DD HH:MM:SS" and the terminating NUL. */
  function Text(dt: DateTime): (s: seq<char>)
    requires Bytes(dt)
    ensures |s| == 18
  {
    var y, m, d, hh, mm, ss := Field(dt.y), Field(dt.m), Field(dt.d), Field(dt.hh), Field(dt.mm), Field(dt.ss);
    [y[0], y[1], '-', m[0], m[1], '-', d[0], d[1], ' ', hh[0], hh[1], ':', mm[0], mm[1], ':', ss[0], ss[1], 0 as char]
  }

  /** The two digits at k and k + 1, as `conv2d` reads them. */
  function DigitsAt(s: seq<char>, k: int): int
    requires 0 <= k && k + 1 < |s|
  {
    Conv2d(s[k], s[k + 1])
  }

  /** Every field has at most two digits. */
  predicate TwoDigits(dt: DateTime)
  {
    Bytes(dt) && dt.y <= 99 && dt.m <= 99 && dt.d <= 99 && dt.hh <= 99 && dt.mm <= 99 && dt.ss <= 99
  }

  /** The text has its separators at 2, 5, 8, 11 and 14 and the NUL at 17. */
  lemma TextSeparators(dt: DateTime)
    requires Bytes(dt)
    ensures Text(dt)[2] == '-' && Text(dt)[5] == '-' && Text(dt)[8] == ' '
    ensures Text(dt)[11] == ':' && Text(dt)[14] == ':' && Text(dt)[17] == 0 as char
  {
  }

  /** Reading the two-digit fields of the text back gives the date-time (every valid one has two-digit fields). */
  lemma TextRoundTrip(dt: DateTime)
    requires TwoDigits(dt)
    ensures DigitsAt(Text(dt), 0) == dt.y && DigitsAt(Text(dt), 3) == dt.m && DigitsAt(Text(dt), 6) == dt.d
    ensures DigitsAt(Text(dt), 9) == dt.hh && DigitsAt(Text(dt), 12) == dt.mm && DigitsAt(Text(dt), 15) == dt.ss
  {
    var s := Text(dt);
    ReadBackAt(s, 0, dt.y);
    ReadBackAt(s, 3, dt.m);
    ReadBackAt(s, 6, dt.d);
    ReadBackAt(s, 9, dt.hh);
    ReadBackAt(s, 12, dt.mm);
    ReadBackAt(s, 15, dt.ss);
  }

  lemma ReadBackAt(s: seq<char>, k: int, v: int)
    requires 0 <= k && k + 1 < |s| && 0 <= v <= 99 && s[k] == Field(v)[0] && s[k + 1] == Field(v)[1]
    ensures DigitsAt(s, k) == v
  {
    FieldReadBack(v);
  }

  /** `conv2d` reads the field of a value below 100 back as the value. */
  lemma FieldReadBack(v: int)
    requires 0 <= v <= 99
    ensures Conv2d(Field(v)[0], Field(v)[1]) == v
  {
  }

  /** `DateTime::Buf`: the text of a date-time in an 18-character array. */
  class Buf {
    const chars: array<char>

    /** `Buf(dt)`: each field formatted into its two characters, each followed by its separator, the last by the NUL. */
    constructor(dt: DateTime)
      requires Bytes(dt)
      ensures fresh(chars) && chars[..] == Text(dt)
    {
      var a := new char[18];
      PutField(a, 0, dt.y, '-');
      PutField(a, 3, dt.m, '-');
      PutField(a, 6, dt.d, ' ');
      PutField(a, 9, dt.hh, ':');
      PutField(a, 12, dt.mm, ':');
      PutField(a, 15, dt.ss, 0 as char);
      chars := a;
    }
  }

  /** One field of `Buf(dt)`: `formatDecimal(v, &_buf[off], 2, FMT_ZERO)`, then the separator at off + 2. */
  method PutField(a: array<char>, off: nat, v: int, sep: char)
    requires IsUInt8(v) && off + 3 <= a.Length
    modifies a
    ensures a[off] == Field(v)[0] && a[off + 1] == Field(v)[1] && a[off + 2] == sep
    ensures forall k :: 0 <= k < a.Length && (k < off || off + 3 <= k) ==> a[k] == old(a[k])
  {
    var n := FmtUtil.FormatDecimal(v, a, off, 2, FmtUtil.FMT_ZERO);
    FieldIsFormatted(v);
    Window(a[..], old(a[..]), off, Field(v));
    a[off + 2] := sep;
  }

  /** A window w written at off into o, everything else kept, read index by index. */
  lemma Window(b: seq<char>, o: seq<char>, off: nat, w: seq<char>)
    requires |b| == |o| && off + |w| <= |b|
    requires b[off..off + |w|] == w && b[..off] == o[..off] && b[off + |w|..] == o[off + |w|..]
    ensures forall k :: 0 <= k < |w| ==> b[off + k] == w[k]
    ensures forall k :: 0 <= k < |b| && (k < off || off + |w| <= k) ==> b[k] == o[k]
  {
    forall k | 0 <= k < |b| && (k < off || off + |w| <= k)
      ensures b[k] == o[k]
    {
      if k < off {
        assert b[..off][k] == o[..off][k];
      } else {
        assert b[off + |w|..][k - off - |w|] == o[off + |w|..][k - off - |w|];
      }
    }
    forall k | 0 <= k < |w|
      ensures b[off + k] == w[k]
    {
      assert b[off..off + |w|][k] == w[k];
    }
  }
}
