// `Timeout`: a one-shot deadline on the Arduino millisecond clock. `millis()`
// is an `unsigned long` that wraps every 2^32 ms; the deadline `_time` is a
// signed `long`, and the due test reinterprets the unsigned difference
// `_time - millis()` as signed, so a deadline less than 2^31 ms away is
// judged correctly across the wrap. `_time == 0` means disabled. The clock
// reading is a parameter of every operation that reads it.
module Timeout {
  import opened CInt

  const SECOND: int := 1000
  const MINUTE: int := 60 * SECOND
  const HOUR: int := 60 * MINUTE
  const DAY: int := 24 * HOUR

  /** `(type)(_time - millis())`: the signed distance from the clock to the deadline. */
  function Diff(time: int, now: int): (r: int)
    ensures IsInt32(r) && (time - now - r) % TWO32 == 0
  {
    ToInt32(time - now)
  }

  /** `_time` after `reset(interval)` at clock reading `now`: never 0, so the timeout is enabled. */
  function Deadline(interval: int, now: int): (r: int)
    requires IsInt32(interval) && IsUInt32(now)
    ensures IsInt32(r) && r != 0
    ensures var d := if interval < 0 then 0 else interval;
      (r - (now + d)) % TWO32 == 0 || ((now + d) % TWO32 == 0 && r == 1)
  {
    var d := if interval < 0 then 0 else interval;
    var t := ToInt32(now + d);
    if t == 0 then 1 else t
  }

  /** `check()` fires: the timeout is enabled and the signed distance is not positive. */
  predicate Fires(time: int, now: int)
  {
    time != 0 && Diff(time, now) <= 0
  }

  /** `remaining()`: 0 when disabled or due, else the positive distance to the deadline. */
  function RemainingAt(time: int, now: int): (r: int)
    ensures r >= 0 && IsInt32(r)
    ensures r == 0 <==> time == 0 || Fires(time, now)
    ensures r > 0 ==> r == Diff(time, now)
  {
    if time == 0 then 0
    else
      var rem := Diff(time, now);
      if rem > 0 then rem else 0
  }

  /**
   * Two integers congruent modulo 2^32 with one of them in the `long` range: the
   * conversion to `long` of the other one gives it back.
   */
  lemma Int32Unique(x: int, v: int)
    requires IsInt32(v) && (x - v) % TWO32 == 0
    ensures ToInt32(x) == v
  {
    var r := ToInt32(x);
    var a, b := (x - r) / TWO32, (x - v) / TWO32;
    assert x - r == TWO32 * a;
    assert x - v == TWO32 * b;
    assert r - v == TWO32 * (b - a);
  }

  /**
   * Wrap-around safety: after `reset(interval)` at `now0`, a clock that has advanced
   * by e ms (modulo 2^32, so possibly past the wrap) sees the deadline exactly
   * `interval - e` ms ahead, or one more when the deadline fell on 0 and was
   * moved to 1. Hence it fires once e exceeds the interval and not before e reaches it.
   */
  lemma DueAfter(now0: int, interval: int, e: int)
    requires IsUInt32(now0) && 0 <= interval < 0x7fff_ffff && 0 <= e < 0x8000_0000
    ensures var d := Diff(Deadline(interval, now0), ToUInt32(now0 + e));
      interval - e <= d <= interval - e + 1
    ensures e > interval ==> Fires(Deadline(interval, now0), ToUInt32(now0 + e))
    ensures e < interval ==> !Fires(Deadline(interval, now0), ToUInt32(now0 + e))
  {
    var t := Deadline(interval, now0);
    var n := ToUInt32(now0 + e);
    if (now0 + interval) % TWO32 == 0 && t == 1 {
      MultiplesClosed(now0 + e - n, now0 + interval);
      assert t - n - (interval - e + 1) == (now0 + e - n) - (now0 + interval);
      Int32Unique(t - n, interval - e + 1);
    } else {
      MultiplesClosed(t - (now0 + interval), now0 + e - n);
      assert t - n - (interval - e) == (t - (now0 + interval)) + (now0 + e - n);
      Int32Unique(t - n, interval - e);
    }
  }

  /** Multiples of 2^32 are closed under sum and difference. */
  lemma MultiplesClosed(x: int, y: int)
    requires x % TWO32 == 0 && y % TWO32 == 0
    ensures (x + y) % TWO32 == 0 && (x - y) % TWO32 == 0
  {
    var k, j := x / TWO32, y / TWO32;
    assert x == TWO32 * k && y == TWO32 * j;
    assert x + y == TWO32 * (k + j) && x - y == TWO32 * (k - j);
  }

  /** The timeout object: `_time` is the deadline, 0 when disabled. */
  class Timeout {
    var time: int

    predicate Valid()
      reads this
    {
      IsInt32(time)
    }

    /**
     * `Timeout()`: the constructor leaves `_time` as it is; for the statically
     * allocated objects the drivers hold that is 0, so the timeout starts disabled.
     */
    constructor()
      ensures Valid() && time == 0
    {
      time := 0;
    }

    /** `Timeout(interval)`: `reset(interval)` at construction. */
    constructor Start(interval: int, now: int)
      requires IsInt32(interval) && IsUInt32(now)
      ensures Valid() && time == Deadline(interval, now)
    {
      time := Deadline(interval, now);
    }

    /** `enabled()`. */
    predicate Enabled()
      reads this
    {
      time != 0
    }

    /** `disable()`. */
    method Disable()
      modifies this
      ensures Valid() && !Enabled()
    {
      time := 0;
    }

    /** `reset(interval)`: a negative interval counts as 0, and the deadline 0 is moved to 1. */
    method Reset(interval: int, now: int)
      requires IsInt32(interval) && IsUInt32(now)
      modifies this
      ensures Valid() && Enabled() && time == Deadline(interval, now)
    {
      var d := interval;
      if d < 0 {
        d := 0;
      }
      time := ToInt32(now + d);
      if time == 0 {
        time := 1;
      }
    }

    /**
     * `check()`: true exactly when enabled and due; firing disables the timeout, so it
     * fires at most once per `reset`. Otherwise nothing changes.
     */
    method Check(now: int) returns (fired: bool)
      requires Valid() && IsUInt32(now)
      modifies this
      ensures Valid()
      ensures fired == Fires(old(time), now)
      ensures fired ==> !Enabled()
      ensures !fired ==> time == old(time)
    {
      if !Enabled() {
        return false;
      }
      if ToInt32(time - now) <= 0 {
        Disable();
        return true;
      }
      return false;
    }

    /** `remaining()`: reads the deadline and changes nothing. */
    method Remaining(now: int) returns (r: int)
      requires Valid() && IsUInt32(now)
      ensures r == RemainingAt(time, now)
    {
      if !Enabled() {
        return 0;
      }
      var rem := ToInt32(time - now);
      if rem > 0 {
        return rem;
      }
      return 0;
    }
  }
}
