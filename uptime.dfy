// `uptime()`: the time since start as the decimal number <days>HHMMSS. Because
// `millis()` wraps every 2^32 ms (about 49.7 days), the function keeps its own
// day count in two globals, `daystart` (the clock reading at which the current
// day began) and `updays`, and advances them a whole day at a time. The globals
// are the fields of a class; the clock reading is a parameter.
module Uptime {
  import opened CInt

  const DAY_LENGTH_MS: int := 86_400_000  // 24 * 60 * 60000

  /** The number of whole days the loop advances from an elapsed time of e ms. */
  function Advance(e: nat): nat
    decreases e
  {
    if e > DAY_LENGTH_MS then 1 + Advance(e - DAY_LENGTH_MS) else 0
  }

  /** The milliseconds by which the loop moves the day start: a whole day per pass. */
  function AdvancedMs(e: nat): nat
    decreases e
  {
    if e > DAY_LENGTH_MS then DAY_LENGTH_MS + AdvancedMs(e - DAY_LENGTH_MS) else 0
  }

  /** The loop moves the day start by whole days, and leaves at most one day elapsed. */
  lemma {:induction false} AdvancedWholeDays(e: nat)
    ensures AdvancedMs(e) == Advance(e) * DAY_LENGTH_MS
    ensures e - AdvancedMs(e) <= DAY_LENGTH_MS
    decreases e
  {
    if e > DAY_LENGTH_MS {
      AdvancedWholeDays(e - DAY_LENGTH_MS);
    }
  }

  /** The loop advances by the number of days before the last (possibly partial) one. */
  lemma {:induction false} AdvanceClosedForm(e: nat)
    ensures Advance(e) == if e <= DAY_LENGTH_MS then 0 else (e - 1) / DAY_LENGTH_MS
    decreases e
  {
    if e > DAY_LENGTH_MS {
      AdvanceClosedForm(e - DAY_LENGTH_MS);
    }
  }

  /** The fields of the result: hours, minutes and seconds of `ms`, truncated to whole seconds. */
  function Seconds(ms: nat): nat { ms / 1000 % 60 }
  function Minutes(ms: nat): nat { ms / 1000 / 60 % 60 }
  function Hours(ms: nat): nat { ms / 1000 / 60 / 60 }

  /**
   * The returned `long`: ((days*100 + hours)*100 + minutes)*100 + seconds, converted to
   * 32 bits (the `long` arithmetic wraps beyond 2147 days).
   */
  function Pack(days: int, ms: nat): (r: int)
    requires ms <= DAY_LENGTH_MS
    ensures IsInt32(r)
  {
    ToInt32(((days * 100 + Hours(ms)) * 100 + Minutes(ms)) * 100 + Seconds(ms))
  }

  /** The fields are the time of day in whole seconds: minutes and seconds below 60, hours at most 24. */
  lemma DayFields(ms: nat)
    requires ms <= DAY_LENGTH_MS
    ensures Seconds(ms) < 60 && Minutes(ms) < 60 && Hours(ms) <= 24
    ensures (Hours(ms) * 60 + Minutes(ms)) * 60 + Seconds(ms) == ms / 1000
  {
    var s := ms / 1000;
    assert s <= 86400;
    assert s / 60 / 60 <= 24;
  }

  /** For day counts that fit the `long` result, the packed number decodes back into its fields. */
  lemma PackFields(days: int, ms: nat)
    requires ms <= DAY_LENGTH_MS && 0 <= days <= 2147
    ensures var r := Pack(days, ms);
      && r % 100 == Seconds(ms) && r / 100 % 100 == Minutes(ms)
      && r / 10000 % 100 == Hours(ms) && r / 1000000 == days
  {
    DayFields(ms);
    var h, m, sec := Hours(ms), Minutes(ms), Seconds(ms);
    var v := ((days * 100 + h) * 100 + m) * 100 + sec;
    assert v == days * 1000000 + h * 10000 + m * 100 + sec;
    assert 0 <= v < 0x8000_0000;
    assert Pack(days, ms) == v;
    Decode(days, h, m, sec);
  }

  lemma Decode(d: nat, h: nat, m: nat, s: nat)
    requires h < 100 && m < 100 && s < 100
    ensures var v := d * 1000000 + h * 10000 + m * 100 + s;
      v % 100 == s && v / 100 % 100 == m && v / 10000 % 100 == h && v / 1000000 == d
  {
    var v := d * 1000000 + h * 10000 + m * 100 + s;
    assert v / 100 == d * 10000 + h * 100 + m;
    assert v / 10000 == d * 100 + h;
  }

  /** Hours reach 24 when exactly one day has passed since the day start, since the loop advances only past it. */
  lemma FullDayShowsHour24()
    ensures Hours(DAY_LENGTH_MS) == 24 && Pack(0, DAY_LENGTH_MS) == 240000
  {
  }

  /** One step of the loop: advancing the day start by a day takes a day off the elapsed time. */
  lemma StepElapsed(now: int, ds: int, e: int)
    requires IsUInt32(now) && IsUInt32(ds) && e == ToUInt32(now - ds) && e > DAY_LENGTH_MS
    ensures ToUInt32(now - ToUInt32(ds + DAY_LENGTH_MS)) == e - DAY_LENGTH_MS
  {
    var ds2 := ToUInt32(ds + DAY_LENGTH_MS);
    var k := (now - ds - e) / TWO32;
    var j := (ds + DAY_LENGTH_MS - ds2) / TWO32;
    assert now - ds - e == TWO32 * k;
    assert ds + DAY_LENGTH_MS - ds2 == TWO32 * j;
    assert now - ds2 - (e - DAY_LENGTH_MS) == TWO32 * (k + j);
    assert (now - ds2 - (e - DAY_LENGTH_MS)) % TWO32 == 0;
    assert (now - ds2) % TWO32 == e - DAY_LENGTH_MS;
  }

  /** The globals `daystart` and `updays` (an `int`, 16 bits on the AVR). */
  class Uptime {
    var daystart: int
    var updays: int

    predicate Valid()
      reads this
    {
      IsUInt32(daystart) && IsInt16(updays)
    }

    /** Both globals start at 0. */
    constructor()
      ensures Valid() && daystart == 0 && updays == 0
    {
      daystart, updays := 0, 0;
    }

    /**
     * `uptime()` at clock reading `now`: the day start moves forward by whole days while
     * more than a day has passed, counting them; the result packs the day count with the
     * time of day of what remains, which is at most one day.
     */
    method Uptime(now: int) returns (r: int)
      requires Valid() && IsUInt32(now)
      modifies this
      ensures Valid()
      ensures var e0 := ToUInt32(now - old(daystart));
        && daystart == ToUInt32(old(daystart) + AdvancedMs(e0))
        && updays == ToInt16(old(updays) + Advance(e0))
        && ToUInt32(now - daystart) == e0 - AdvancedMs(e0) <= DAY_LENGTH_MS
        && r == Pack(updays, ToUInt32(now - daystart))
    {
      ghost var e0 := ToUInt32(now - daystart);
      ghost var k, passed := SkipDays(now);
      r := Format(updays, ToUInt32(now - daystart));
    }

    /** The loop of `uptime()`: whole days are skipped while more than a day has passed. */
    method SkipDays(now: int) returns (ghost k: nat, ghost passed: nat)
      requires Valid() && IsUInt32(now)
      modifies this
      ensures Valid()
      ensures var e0 := ToUInt32(now - old(daystart));
        && k == Advance(e0) && passed == AdvancedMs(e0)
        && daystart == ToUInt32(old(daystart) + passed)
        && updays == ToInt16(old(updays) + k)
        && ToUInt32(now - daystart) == e0 - passed <= DAY_LENGTH_MS
    {
      ghost var e0 := ToUInt32(now - daystart);
      ghost var ds0, days0 := daystart, updays;
      k, passed := 0, 0;
      while ToUInt32(now - daystart) > DAY_LENGTH_MS
        invariant Valid() && passed <= e0
        invariant ToUInt32(now - daystart) == e0 - passed
        invariant Advance(e0) == k + Advance(e0 - passed)
        invariant AdvancedMs(e0) == passed + AdvancedMs(e0 - passed)
        invariant daystart == ToUInt32(ds0 + passed)
        invariant updays == ToInt16(days0 + k)
        decreases e0 - passed
      {
        NextDay(now, e0, ds0, days0, k, passed);
        k, passed := k + 1, passed + DAY_LENGTH_MS;
      }
    }

    /** One pass of the loop: the day start moves a day forward and the day count goes up. */
    method NextDay(now: int, ghost e0: nat, ghost ds0: int, ghost days0: int, ghost k: nat, ghost passed: nat)
      requires Valid() && IsUInt32(now) && IsUInt32(ds0) && passed <= e0
      requires ToUInt32(now - daystart) == e0 - passed > DAY_LENGTH_MS
      requires Advance(e0) == k + Advance(e0 - passed)
      requires AdvancedMs(e0) == passed + AdvancedMs(e0 - passed)
      requires daystart == ToUInt32(ds0 + passed) && updays == ToInt16(days0 + k)
      modifies this
      ensures Valid() && passed + DAY_LENGTH_MS <= e0
      ensures ToUInt32(now - daystart) == e0 - (passed + DAY_LENGTH_MS)
      ensures Advance(e0) == k + 1 + Advance(e0 - (passed + DAY_LENGTH_MS))
      ensures AdvancedMs(e0) == passed + DAY_LENGTH_MS + AdvancedMs(e0 - (passed + DAY_LENGTH_MS))
      ensures daystart == ToUInt32(ds0 + (passed + DAY_LENGTH_MS)) && updays == ToInt16(days0 + (k + 1))
    {
      StepElapsed(now, daystart, e0 - passed);
      StepDayStart(ds0, passed);
      StepDays(days0, k);
      daystart := ToUInt32(daystart + DAY_LENGTH_MS);
      updays := ToInt16(updays + 1);
    }
  }

  /** The arithmetic after the loop: whole seconds split into the packed decimal fields. */
  method Format(days: int, ms: nat) returns (r: int)
    requires ms <= DAY_LENGTH_MS
    ensures r == Pack(days, ms)
  {
    var time := ms;
    time := time / 1000;
    var secs := time % 60;
    time := time / 60;
    var mins := time % 60;
    time := time / 60;
    var hours := time;
    r := ToInt32(((days * 100 + hours) * 100 + mins) * 100 + secs);
  }

  lemma StepDayStart(ds0: int, p: int)
    ensures ToUInt32(ToUInt32(ds0 + p) + DAY_LENGTH_MS) == ToUInt32(ds0 + (p + DAY_LENGTH_MS))
  {
    var a := ds0 + p;
    var j := (a - ToUInt32(a)) / TWO32;
    assert a - ToUInt32(a) == TWO32 * j;
    assert ToUInt32(a) + DAY_LENGTH_MS == ds0 + (p + DAY_LENGTH_MS) - TWO32 * j;
  }

  lemma StepDays(days0: int, k: nat)
    ensures ToInt16(ToInt16(days0 + k) + 1) == ToInt16(days0 + k + 1)
  {
    var a := days0 + k;
    var j := (a - ToInt16(a)) / TWO16;
    assert a - ToInt16(a) == TWO16 * j;
    assert ToInt16(a) + 1 == a + 1 - TWO16 * j;
  }
}
