// `BlinkLed`: toggles an LED each time more than `interval` ms have passed since
// the last toggle. The clock reading `millis()` is a parameter and the LED pin's
// output level, which `digitalWrite` drives, is the field `level`.
module BlinkLed {
  import opened CInt

  /** `now - _time` in `unsigned long` arithmetic: the time since the last toggle. */
  function Elapsed(now: int, since: int): (r: int)
    ensures IsUInt32(r) && (now - since - r) % TWO32 == 0
  {
    ToUInt32(now - since)
  }

  /** The condition of `blink`: strictly more than `interval` ms have passed. */
  predicate Toggles(since: int, interval: int, now: int)
  {
    Elapsed(now, since) > interval
  }

  /**
   * The unsigned difference measures real elapsed time across the wrap of `millis()`:
   * a clock that has advanced by e < 2^32 ms since `since` reports exactly e.
   */
  lemma ElapsedAcrossWrap(since: int, e: int, interval: int)
    requires IsUInt32(since) && 0 <= e < TWO32
    ensures Elapsed(ToUInt32(since + e), since) == e
    ensures Toggles(since, interval, ToUInt32(since + e)) <==> e > interval
  {
    var n := ToUInt32(since + e);
    var k := (since + e - n) / TWO32;
    assert since + e - n == TWO32 * k;
    assert n - since - e == -TWO32 * k;
    assert (n - since) % TWO32 == e;
  }

  class BlinkLed {
    const pin: int
    var time: int
    var state: bool
    var level: bool

    predicate Valid()
      reads this
    {
      IsUInt32(time)
    }

    /**
     * `BlinkLed(pin)` sets the pin up as an output; `_time` and `_state` keep the zero
     * of static storage, so the LED is off and the first toggle comes after `interval`.
     */
    constructor(pin: int)
      ensures Valid() && this.pin == pin && time == 0 && !state && !level
    {
      this.pin := pin;
      time, state, level := 0, false, false;
    }

    /**
     * `blink(interval)`: when more than `interval` ms have passed since the last toggle,
     * the state flips, the clock reading is recorded and the pin is driven to the new
     * state; otherwise nothing changes.
     */
    method Blink(interval: int, now: int)
      requires Valid() && IsUInt16(interval) && IsUInt32(now)
      modifies this
      ensures Valid()
      ensures Toggles(old(time), interval, now) ==> state == !old(state) && time == now && level == state
      ensures !Toggles(old(time), interval, now) ==> state == old(state) && time == old(time) && level == old(level)
    {
      if ToUInt32(now - time) > interval {
        state := !state;
        time := now;
        level := state;
      }
    }

    /** `off()`: the LED goes dark now and lights again one interval later. */
    method Off(now: int)
      requires IsUInt32(now)
      modifies this
      ensures Valid() && !state && !level && time == now
    {
      time := now;
      state := false;
      level := false;
    }
  }
}
