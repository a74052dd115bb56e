// `HIH6120`: the older driver of the same sensor. It opens a master of its own
// speed for each transaction (the object's destructor sends the STOP and
// restores the peripheral), keeps the raw words of the last fetch and a valid
// flag, and converts on demand with the divisor 2^14 - 1. A fetch pair passes
// when the first is fresh, the second stale, and both carry the same words.
//
// The master's calls are abstract: the status and bytes of each are a
// parameter, and the calls made are logged in `bus`.
module HIH6120 {
  import opened CInt
  import opened FixNumUtil
  import opened FixNum
  import F = FixNum
  import opened HumidIcon
  import T = Timeout

  const RETRY_LIMIT: int := 3
  const MEASURE: int := 50
  const RETRY: int := 1000
  const WAIT: int := 5000

  /** `(1 << 14) - 1`, the full scale this driver divides by. */
  const FULL_SCALE: int := 0x4000 - 1

  /** A master opened at a speed, a write, a read, and the master's destruction (STOP, peripheral restored). */
  datatype Transfer = Open(speed: int) | Transmit(addr: int, count: nat) | Receive(addr: int, count: nat) | Close

  /** The driver's state: `_measure`, `_valid`, `_retry_count` and the words in `_data`. */
  datatype Hih6120 = Hih6120(measure: bool, valid: bool, retryCount: int, data: Data)

  /** The result of a step: the new state, the return value, the wait until the next one and the calls made. */
  datatype Effect = Effect(next: Hih6120, result: bool, wait: int, calls: seq<Transfer>)

  /**
   * `receive()` as written: the code, the words left in `_data`, and the calls. `_data` is
   * overwritten by the first fetch as soon as it succeeds on the bus, before any check;
   * a stale first fetch, a failed or fresh second fetch, and different words are
   * all code 1, and bus errors return their status.
   */
  function ReceiveStep(speed: int, data: Data, b: Bus): (int, Data, seq<Transfer>)
    requires BusOk(b)
  {
    var rd := Receive(ADDR, BYTES);
    if b.first.status != 0 then (b.first.status, data, [Open(speed), rd, Close])
    else
      var (d1, s1) := Set(b.first.bytes);
      if s1 != 0 then (1, d1, [Open(speed), rd, Close])
      else
        var calls := [Open(speed), rd, rd, Close];
        if b.second.status != 0 then (b.second.status, d1, calls)
        else
          var (d2, s2) := Set(b.second.bytes);
          if s2 != 1 then (1, d1, calls)
          else if d2.h != d1.h || d2.t != d1.t then (1, d1, calls)
          else (0, d1, calls)
  }

  /** The test `receive()` makes: fresh, then stale with the same words, with no bus error. */
  predicate Verified(b: Bus)
    requires BusOk(b)
  {
    && b.first.status == 0 && Set(b.first.bytes).1 == 0
    && b.second.status == 0 && Set(b.second.bytes).1 == 1
    && Set(b.first.bytes).0 == Set(b.second.bytes).0
  }

  /** `retry()`: back to the measurement; a valid reading counts the retry and the one past the limit invalidates it. */
  function Retry(s: Hih6120): Hih6120
  {
    var s1 := s.(measure := true);
    if s.valid then s1.(retryCount := ToUInt8(s.retryCount + 1), valid := s.retryCount < RETRY_LIMIT)
    else s1
  }

  /** The step `check` takes once its timeout has fired, with `_data` as `rx` leaves it. */
  function StepWith(s: Hih6120, speed: int, b: Bus, rx: (int, Data, seq<Transfer>)): Effect
  {
    if s.measure then
      var calls := [Open(speed), Transmit(ADDR, 0), Close];
      if b.command != 0 then Effect(Retry(s), false, RETRY, calls)
      else Effect(s.(measure := false), false, MEASURE, calls)
    else
      var (code, d, calls) := rx;
      if code != 0 then Effect(Retry(s.(data := d)), false, RETRY, calls)
      else Effect(s.(data := d, valid := true, retryCount := 0, measure := true), true, WAIT, calls)
  }

  function Step(s: Hih6120, speed: int, b: Bus): Effect
    requires BusOk(b)
  {
    StepWith(s, speed, b, ReceiveStep(speed, s.data, b))
  }

  /** `getRH()`: invalid without a valid reading, else the words held in tenths of a percent. */
  function RhOf(s: Hih6120): FixNum
    requires InRange(0, s.data)
  {
    if !s.valid then Invalid(Int16, 1) else Rh(s.data.h, FULL_SCALE)
  }

  /** `getTemp()`: invalid without a valid reading, else the words held in tenths of a degree. */
  function TempOf(s: Hih6120): FixNum
    requires InRange(0, s.data)
  {
    if !s.valid then Invalid(Int16, 1) else Temp(s.data.t, FULL_SCALE)
  }

  /** The invariant: 14-bit words, a retry count that never wraps, and a valid reading retried at most three times. */
  predicate Good(s: Hih6120)
  {
    InRange(0, s.data) && 0 <= s.retryCount <= RETRY_LIMIT + 1 && (s.valid ==> s.retryCount <= RETRY_LIMIT)
  }

  /**
   * What `receive()` returns: 0 exactly when the fetches are verified; otherwise a bus
   * status or 1. The words left are the first fetch's whenever it succeeded on the bus.
   */
  lemma ReceiveShape(speed: int, data: Data, b: Bus)
    requires BusOk(b)
    ensures var (code, d, _) := ReceiveStep(speed, data, b);
      && IsUInt8(code) && (code == 0 <==> Verified(b))
      && (code != 0 ==> code == 1 || code == b.first.status || code == b.second.status)
      && d == (if b.first.status == 0 then Set(b.first.bytes).0 else data)
  {
  }

  /** Every step keeps the invariant. */
  lemma StepKeepsGood(s: Hih6120, speed: int, b: Bus)
    requires Good(s) && BusOk(b)
    ensures Good(Step(s, speed, b).next)
  {
    ReceiveShape(speed, s.data, b);
  }

  /**
   * `check` returns true exactly when a reading was verified, and then holds the words
   * both fetches carried, valid, with no retry counted, and reports them in tenths; the
   * next measurement is five seconds away.
   */
  lemma CheckResult(s: Hih6120, speed: int, b: Bus)
    requires Good(s) && BusOk(b)
    ensures var e := Step(s, speed, b);
      && (e.result <==> !s.measure && Verified(b))
      && (e.result ==>
            && e.next == s.(data := Set(b.first.bytes).0, valid := true, retryCount := 0, measure := true)
            && e.wait == WAIT
            && RhOf(e.next) == Rh(Set(b.first.bytes).0.h, FULL_SCALE)
            && TempOf(e.next) == Temp(Set(b.first.bytes).0.t, FULL_SCALE))
  {
    ReceiveShape(speed, s.data, b);
  }

  /**
   * A failure returns to the measurement after a second; a valid reading stays valid for
   * three failures in a row and is invalidated by the fourth.
   */
  lemma FailureRetries(s: Hih6120, speed: int, b: Bus)
    requires Good(s) && BusOk(b)
    requires s.measure ==> b.command != 0
    requires !s.measure ==> !Verified(b)
    ensures var e := Step(s, speed, b);
      && !e.result && e.wait == RETRY && e.next.measure
      && (s.valid ==> e.next.retryCount == s.retryCount + 1 && (e.next.valid <==> s.retryCount < RETRY_LIMIT))
      && (!s.valid ==> !e.next.valid && e.next.retryCount == s.retryCount)
  {
    ReceiveShape(speed, s.data, b);
  }

  /** The fetches of a sensor that answers with the words d. */
  function Honest(d: Data): Bus
    requires InRange(0, d)
  {
    Bus(0, Fetch(0, Pack(0, d)), Fetch(0, Pack(1, d)))
  }

  /** What `Data::set` reads from those fetches. */
  lemma HonestFetches(d: Data)
    requires InRange(0, d)
    ensures Set(Honest(d).first.bytes) == (d, 0) && Set(Honest(d).second.bytes) == (d, 1) && Verified(Honest(d))
  {
    SetPack(0, d);
    SetPack(1, d);
  }

  /** A full cycle with a sensor that answers: the words it sent, reported in tenths. */
  lemma FullCycle(s: Hih6120, speed: int, d: Data)
    requires Good(s) && s.measure && InRange(0, d)
    ensures var e1 := Step(s, speed, Honest(d)); var e2 := Step(e1.next, speed, Honest(d));
      && !e1.result && e1.wait == MEASURE && e2.result && e2.wait == WAIT
      && RhOf(e2.next) == Rh(d.h, FULL_SCALE) && TempOf(e2.next) == Temp(d.t, FULL_SCALE)
      && e1.calls == [Open(speed), Transmit(ADDR, 0), Close]
      && e2.calls == [Open(speed), Receive(ADDR, BYTES), Receive(ADDR, BYTES), Close]
  {
    var b := Honest(d);
    HonestFetches(d);
    var e1 := Step(s, speed, b);
    assert e1 == Effect(s.(measure := false), false, MEASURE, [Open(speed), Transmit(ADDR, 0), Close]);
    var calls := [Open(speed), Receive(ADDR, BYTES), Receive(ADDR, BYTES), Close];
    assert ReceiveStep(speed, s.data, b) == (0, d, calls);
    var e2 := Step(e1.next, speed, b);
    assert e2 == Effect(s.(data := d, valid := true, retryCount := 0), true, WAIT, calls);
    assert RhOf(e2.next) == Rh(d.h, FULL_SCALE);
    assert TempOf(e2.next) == Temp(d.t, FULL_SCALE);
  }

  // ----------- Finding: unverified words reported -----------

  /**
   * As written, a failed verification leaves the first fetch's words in `_data`, and while
   * the previous reading is still valid `getRH()` reports those unverified words: here a
   * valid reading of d0, then a first fetch of d1 that the second fetch contradicts.
   */
  lemma UnverifiedWordsReported(s: Hih6120, speed: int, d1: Data, d2: Data)
    requires Good(s) && !s.measure && s.valid && s.retryCount < RETRY_LIMIT
    requires InRange(0, d1) && InRange(0, d2) && d1 != d2
    ensures var e := Step(s, speed, Bus(0, Fetch(0, Pack(0, d1)), Fetch(0, Pack(1, d2))));
      && !e.result && e.next.valid && e.next.data == d1
      && RhOf(e.next) == Rh(d1.h, FULL_SCALE) && TempOf(e.next) == Temp(d1.t, FULL_SCALE)
  {
    SetPack(0, d1);
    SetPack(1, d2);
    ReceiveShape(speed, s.data, Bus(0, Fetch(0, Pack(0, d1)), Fetch(0, Pack(1, d2))));
  }

  /** `receive()` as intended: the words are kept only once both fetches verify them. */
  function ReceiveIntended(speed: int, data: Data, b: Bus): (int, Data, seq<Transfer>)
    requires BusOk(b)
  {
    var r := ReceiveStep(speed, data, b);
    if r.0 == 0 then r else (r.0, data, r.2)
  }

  function StepIntended(s: Hih6120, speed: int, b: Bus): Effect
    requires BusOk(b)
  {
    StepWith(s, speed, b, ReceiveIntended(speed, s.data, b))
  }

  /**
   * With the intended `receive()` the words held change only on a verified reading: a
   * failed step keeps them, so a valid reading is always one that passed verification.
   */
  lemma IntendedKeepsVerified(s: Hih6120, speed: int, b: Bus)
    requires Good(s) && BusOk(b)
    ensures var e := StepIntended(s, speed, b);
      && Good(e.next)
      && (e.result <==> !s.measure && Verified(b))
      && (e.result ==> e.next.data == Set(b.first.bytes).0 == Set(b.second.bytes).0)
      && (!e.result ==> e.next.data == s.data && RhOf(e.next) == (if e.next.valid then RhOf(s) else Invalid(Int16, 1)))
  {
    ReceiveShape(speed, s.data, b);
  }

  // ----------- The driver -----------

  class Driver {
    const speed: int
    var measure: bool
    var valid: bool
    var retryCount: int
    var data: Data
    var bus: seq<Transfer>
    const timeout: T.Timeout

    function Snap(): Hih6120
      reads this
    {
      Hih6120(measure, valid, retryCount, data)
    }

    predicate Valid()
      reads this, timeout
    {
      timeout.Valid() && Good(Snap())
    }

    /**
     * `HIH6120(twi_speed)`: the speed kept, a timeout that fires at once, the measurement
     * next; the other fields are those of static storage, zero.
     */
    constructor(twiSpeed: int, now: int)
      requires IsUInt32(now)
      ensures Valid() && fresh(timeout) && bus == [] && speed == twiSpeed
      ensures Snap() == Hih6120(true, false, 0, Data(0, 0))
      ensures timeout.time == T.Deadline(0, now)
    {
      speed := twiSpeed;
      timeout := new T.Timeout.Start(0, now);
      measure, valid, retryCount, data := true, false, 0, Data(0, 0);
      bus := [];
    }

    /** `getRH()`: the humidity of the words held, or invalid. */
    function GetRH(): (r: FixNum)
      requires Valid()
      reads this, timeout
      ensures !valid ==> r == Invalid(Int16, 1)
      ensures valid ==> F.Valid(r) && r.mantissa == Div(data.h * 1000, FULL_SCALE) && 0 <= r.mantissa <= 1000
    {
      RhValue(data.h, FULL_SCALE);
      RhOf(Snap())
    }

    /** `getTemp()`: the temperature of the words held, or invalid. */
    function GetTemp(): (r: FixNum)
      requires Valid()
      reads this, timeout
      ensures !valid ==> r == Invalid(Int16, 1)
      ensures valid ==> F.Valid(r) && r.mantissa == Div(data.t * 1650, FULL_SCALE) - 400 && -400 <= r.mantissa <= 1250
    {
      TempValue(data.t, FULL_SCALE);
      TempOf(Snap())
    }

    /** `receive()`: two reads on one master; `_data` takes the first as soon as the bus delivers it. */
    method ReceiveData(b: Bus) returns (code: int)
      requires BusOk(b)
      modifies this
      ensures var (c, d, calls) := ReceiveStep(speed, old(data), b);
        code == c && data == d && bus == old(bus) + calls
      ensures measure == old(measure) && valid == old(valid) && retryCount == old(retryCount)
    {
      var rd := Receive(ADDR, BYTES);
      bus := bus + [Open(speed), rd];
      if b.first.status != 0 {
        bus := bus + [Close];
        return b.first.status;
      }
      var (d1, s1) := Set(b.first.bytes);
      data := d1;
      if s1 != 0 {
        bus := bus + [Close];
        return 1;
      }
      bus := bus + [rd, Close];
      if b.second.status != 0 {
        return b.second.status;
      }
      var (d2, s2) := Set(b.second.bytes);
      if s2 != 1 {
        return 1;
      }
      if d2.h != data.h || d2.t != data.t {
        return 1;
      }
      return 0;
    }

    /** `receive()` as intended: `_data` is written only once the second fetch agrees. */
    method ReceiveDataIntended(b: Bus) returns (code: int)
      requires BusOk(b)
      modifies this
      ensures var (c, d, calls) := ReceiveIntended(speed, old(data), b);
        code == c && data == d && bus == old(bus) + calls
      ensures measure == old(measure) && valid == old(valid) && retryCount == old(retryCount)
    {
      var held := data;
      code := ReceiveData(b);
      if code != 0 {
        data := held;
      }
    }

    /** `retry()`. */
    method RetryNow(now: int)
      requires IsUInt32(now) && timeout.Valid()
      modifies this, timeout
      ensures Snap() == Retry(old(Snap())) && bus == old(bus)
      ensures timeout.Valid() && timeout.time == T.Deadline(RETRY, now)
    {
      timeout.Reset(RETRY, now);
      measure := true;
      if valid {
        var count := retryCount;
        retryCount := ToUInt8(retryCount + 1);
        if count >= RETRY_LIMIT {
          valid := false;
        }
      }
    }

    /**
     * `check()`: nothing before the timeout fires; then the step of `Step`, with the
     * timeout reset to its wait and the master calls logged.
     */
    method Check(now: int, b: Bus) returns (result: bool)
      requires Valid() && IsUInt32(now) && BusOk(b)
      modifies this, timeout
      ensures Valid()
      ensures !T.Fires(old(timeout.time), now) ==>
        !result && Snap() == old(Snap()) && timeout.time == old(timeout.time) && bus == old(bus)
      ensures T.Fires(old(timeout.time), now) ==>
        var e := Step(old(Snap()), speed, b);
        && Snap() == e.next && result == e.result && timeout.time == T.Deadline(e.wait, now)
        && bus == old(bus) + e.calls
    {
      var fired := timeout.Check(now);
      if !fired {
        return false;
      }
      StepKeepsGood(Snap(), speed, b);
      if measure {
        bus := bus + [Open(speed), Transmit(ADDR, 0), Close];
        if b.command != 0 {
          RetryNow(now);
        } else {
          measure := false;
          timeout.Reset(MEASURE, now);
        }
        return false;
      }
      var code := ReceiveData(b);
      if code != 0 {
        RetryNow(now);
        return false;
      }
      valid := true;
      retryCount := 0;
      measure := true;
      timeout.Reset(WAIT, now);
      return true;
    }
  }
}
