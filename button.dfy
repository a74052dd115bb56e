// `Button`: a debounced push button between a pin and ground (pressed reads 0).
// `check` changes the state only after the reading has differed from it for
// the 50 ms debounce interval. The class keeps its state in the enum
// `State { UP, DEBOUNCE, DOWN }` and its timer in a `Timeout` member; the pin
// reading and the clock are parameters.
//
// As written, `check` stores the bool "pressed" into the enum field, so the
// field only ever holds 0 (UP) or 1 (DEBOUNCE), and `operator bool`, which
// tests for DOWN, never holds. `Stored` models that conversion and `Intended`
// the evidently meant one.
module Button {
  import opened CInt
  import T = Timeout

  const DEBOUNCE_MS: int := 50

  // The enumerators of `Button::State`.
  const UP: int := 0
  const DEBOUNCE: int := 1
  const DOWN: int := 2

  /** `_state = state`: the bool "pressed" converted to the enum's integer value, as written. */
  function Stored(pressed: bool): (r: int)
    ensures r != DOWN
    ensures r == UP <==> !pressed
  {
    if pressed then 1 else 0
  }

  /** The state `check` evidently means to record: DOWN when pressed, UP when released. */
  function Intended(pressed: bool): (r: int)
    ensures r == DOWN <==> pressed
    ensures r == UP <==> !pressed
  {
    if pressed then DOWN else UP
  }

  /** `state == _state`: the bool promoted to int and compared with the enum's value. */
  predicate SameAs(pressed: bool, s: int)
  {
    (if pressed then 1 else 0) == s
  }

  /**
   * As written, a recorded press is never DOWN and compares equal to the pressed
   * reading; the intended recording is DOWN exactly for a press, and with it the
   * comparison must be made against the intended value as well.
   */
  lemma PressNeverShows(pressed: bool)
    ensures Stored(pressed) != DOWN
    ensures SameAs(pressed, Stored(pressed))
    ensures (Intended(pressed) == DOWN) == pressed
    ensures pressed ==> !SameAs(pressed, Intended(pressed))
  {
  }

  class Button {
    const pin: int
    var state: int
    const timeout: T.Timeout

    predicate Valid()
      reads this, timeout
    {
      UP <= state <= DOWN && timeout.Valid()
    }

    /** `Button(pin)` configures the input with its pull-up; the state starts as static storage has it: UP. */
    constructor(pin: int)
      ensures Valid() && this.pin == pin && state == UP && !timeout.Enabled()
      ensures fresh(timeout)
    {
      this.pin := pin;
      state := UP;
      timeout := new T.Timeout();
    }

    /** `operator bool`: the button is in the pressed (DOWN) state. */
    predicate Down()
      reads this
    {
      state == DOWN
    }

    /**
     * `check()` with `level` = `digitalRead(_pin)`:
     * - a reading that matches the state disables the debounce timer and reports no change;
     * - the first differing reading arms the 50 ms timer and reports no change;
     * - a differing reading when the timer fires records the reading and reports a change;
     * - otherwise nothing changes.
     */
    method Check(level: int, now: int) returns (changed: bool)
      requires Valid() && IsUInt32(now)
      modifies this, timeout
      ensures Valid()
      ensures var pressed := level == 0;
        if SameAs(pressed, old(state)) then
          !changed && state == old(state) && timeout.time == 0
        else if old(timeout.time) == 0 then
          !changed && state == old(state) && timeout.time == T.Deadline(DEBOUNCE_MS, now)
        else
          changed == T.Fires(old(timeout.time), now)
          && state == (if changed then Stored(pressed) else old(state))
          && timeout.time == (if changed then 0 else old(timeout.time))
      ensures old(state) != DOWN ==> !Down()
    {
      var pressed := level == 0;
      if SameAs(pressed, state) {
        timeout.Disable();
        return false;
      }
      if !timeout.Enabled() {
        timeout.Reset(DEBOUNCE_MS, now);
        return false;
      }
      var fired := timeout.Check(now);
      if !fired {
        return false;
      }
      state := Stored(pressed);
      return true;
    }

    /**
     * `check()` as evidently intended: the reading is compared with, and recorded as,
     * the enum value it stands for, so after a reported change `operator bool` holds
     * exactly when the button is pressed.
     */
    method CheckIntended(level: int, now: int) returns (changed: bool)
      requires Valid() && IsUInt32(now)
      modifies this, timeout
      ensures Valid()
      ensures var pressed := level == 0;
        if Intended(pressed) == old(state) then
          !changed && state == old(state) && timeout.time == 0
        else if old(timeout.time) == 0 then
          !changed && state == old(state) && timeout.time == T.Deadline(DEBOUNCE_MS, now)
        else
          changed == T.Fires(old(timeout.time), now)
          && state == (if changed then Intended(pressed) else old(state))
          && timeout.time == (if changed then 0 else old(timeout.time))
      ensures changed ==> (Down() <==> level == 0)
    {
      var pressed := level == 0;
      if Intended(pressed) == state {
        timeout.Disable();
        return false;
      }
      if !timeout.Enabled() {
        timeout.Reset(DEBOUNCE_MS, now);
        return false;
      }
      var fired := timeout.Check(now);
      if !fired {
        return false;
      }
      state := Intended(pressed);
      return true;
    }
  }
}
