// `HIH`: the driver of a Honeywell HumidIcon sensor on the shared TWI master.
// `check` alternates two phases, one per timeout: command a measurement, then
// 50 ms later fetch it twice without releasing the bus; the first fetch must
// be fresh (status 0) and the second stale (status 1), since the sensor sends
// no CRC. A good reading is converted and kept, and the next measurement is
// 5 s away; a failure retries after a second, and the fourth failure in a row
// after a good reading clears it.
//
// The shared master's calls (`transmit`, `receive` with or without keeping the
// bus, `stop`) are abstract: each outcome (a status byte, 0 on success, and
// the bytes fetched) is a parameter, and the calls made are logged in `bus`.
module HIH {
  import opened CInt
  import opened FixNumUtil
  import opened FixNum
  import F = FixNum
  import opened HumidIcon
  import T = Timeout

  const STATE_MEASURE: int := 0
  const STATE_RECEIVE: int := 1
  const RETRY_LIMIT: int := 3
  const MEASURE: int := 50
  const RETRY: int := 1000
  const WAIT: int := 5000

  /** `(1 << 14) - 2`, the full scale this driver divides by. */
  const FULL_SCALE: int := 0x4000 - 2

  /** A call on the shared master: a write of `count` bytes, a read of `count` bytes (keeping the bus or not), a STOP. */
  datatype Transfer = Transmit(addr: int, count: nat) | Receive(addr: int, count: nat, keepBus: bool) | Stop

  /** The driver's state: `_state`, `_last_error`, `_retry_count` and the last readings. */
  datatype Hih = Hih(state: int, lastError: int, retryCount: int, temp: FixNum, rh: FixNum)

  /** The result of a step: the new state, the return value, the wait until the next one and the calls made. */
  datatype Effect = Effect(next: Hih, result: bool, wait: int, calls: seq<Transfer>)

  /** The stale-data test of `receive` as written: each field is compared with itself. */
  predicate DiffersAsWritten(d1: Data, d2: Data)
  {
    d1.h != d1.h || d2.t != d2.t
  }

  /**
   * `receive()`: the code it returns, the state with the readings it stores and the
   * calls it makes. A failed first fetch returns its status; fresh data that is not
   * fresh (status bits not 0) is code 1 after a STOP; a failed second fetch returns its
   * status; a second fetch that is not stale is code 2; different data would be code 3;
   * an invalid temperature or humidity code 4 or 5.
   */
  function ReceiveStep(s: Hih, b: Bus): (int, Hih, seq<Transfer>)
    requires BusOk(b)
  {
    var keep := Receive(ADDR, BYTES, true);
    if b.first.status != 0 then (b.first.status, s, [keep])
    else
      var (d1, s1) := Set(b.first.bytes);
      if s1 != 0 then (1, s, [keep, Stop])
      else
        var calls := [keep, Receive(ADDR, BYTES, false)];
        if b.second.status != 0 then (b.second.status, s, calls)
        else
          var (d2, s2) := Set(b.second.bytes);
          if s2 != 1 then (2, s, calls)
          else if DiffersAsWritten(d1, d2) then (3, s, calls)
          else
            var (code, s3) := Store(s, d1);
            (code, s3, calls)
  }

  /** The end of `receive()`: the words converted and stored, code 4 or 5 for an invalid result. */
  function Store(s: Hih, d: Data): (int, Hih)
    requires InRange(0, d)
  {
    var temp := Temp(d.t, FULL_SCALE);
    if !Valid(temp) then (4, s.(temp := temp))
    else
      var rh := Rh(d.h, FULL_SCALE);
      if !Valid(rh) then (5, s.(temp := temp, rh := rh))
      else (0, s.(temp := temp, rh := rh))
  }

  /**
   * `retry()`: back to the measurement in a second; while a valid reading is held each
   * retry counts, and the one that finds the count already at the limit clears the
   * readings and reports the change.
   */
  function Retry(s: Hih): (Hih, bool)
  {
    var s1 := s.(state := STATE_MEASURE);
    if Valid(s.temp) then
      if s.retryCount >= RETRY_LIMIT then
        (s1.(retryCount := ToUInt8(s.retryCount + 1), temp := Invalid(Int16, 1), rh := Invalid(Int16, 1)), true)
      else (s1.(retryCount := ToUInt8(s.retryCount + 1)), false)
    else (s1, false)
  }

  /** A failed call with status e: the error kept, then `retry()`. */
  function Failed(s: Hih, e: int, calls: seq<Transfer>): Effect
  {
    var (n, changed) := Retry(s.(lastError := e));
    Effect(n, changed, RETRY, calls)
  }

  /** The step `check` takes once its timeout has fired. */
  function Step(s: Hih, b: Bus): Effect
    requires BusOk(b)
  {
    StepWith(s, b, ReceiveStep(s, b))
  }

  /** The step of `check` for the outcome `rx` of `receive()`. */
  function StepWith(s: Hih, b: Bus, rx: (int, Hih, seq<Transfer>)): Effect
  {
    if s.state == STATE_MEASURE then
      var calls := [Transmit(ADDR, 0)];
      if b.command != 0 then Failed(s, b.command, calls)
      else Effect(s.(state := STATE_RECEIVE), false, MEASURE, calls)
    else
      var (code, s1, calls) := rx;
      if code != 0 then Failed(s1, code, calls)
      else Effect(s1.(retryCount := 0, lastError := 0, state := STATE_MEASURE), true, WAIT, calls)
  }

  /**
   * The invariant: the phase is one of the two, the error a byte, and both readings are
   * tenths in a `fixnum16_1`, valid together; a valid reading has been retried at most
   * three times, and the retry count never passes four, so it never wraps.
   */
  predicate Good(s: Hih)
  {
    && (s.state == STATE_MEASURE || s.state == STATE_RECEIVE)
    && IsUInt8(s.lastError)
    && 0 <= s.retryCount <= RETRY_LIMIT + 1
    && (Valid(s.temp) ==> s.retryCount <= RETRY_LIMIT)
    && (Valid(s.temp) <==> Valid(s.rh))
    && s.temp.t == Int16 && s.temp.prec == 1 && s.rh.t == Int16 && s.rh.prec == 1
    && InType(Int16, s.temp.mantissa) && InType(Int16, s.rh.mantissa)
  }

  /** The success of a fetch pair: fresh, then stale, both without a bus error. */
  predicate Verified(b: Bus)
    requires BusOk(b)
  {
    b.first.status == 0 && Set(b.first.bytes).1 == 0 && b.second.status == 0 && Set(b.second.bytes).1 == 1
  }

  /**
   * What `receive()` returns and stores: 0 exactly when the fetches are verified, and
   * then the first fetch's readings, both valid tenths; otherwise a bus status or the
   * freshness codes 1 and 2, with nothing stored. Codes 3, 4 and 5 come only from the bus.
   */
  lemma ReceiveShape(s: Hih, b: Bus)
    requires BusOk(b)
    ensures var (code, s1, _) := ReceiveStep(s, b);
      && IsUInt8(code) && (code == 0 <==> Verified(b))
      && (code != 0 ==> s1 == s && (code == b.first.status || code == b.second.status || code == 1 || code == 2))
      && (code == 0 ==> s1 == s.(temp := Temp(Set(b.first.bytes).0.t, FULL_SCALE), rh := Rh(Set(b.first.bytes).0.h, FULL_SCALE)))
      && (code == 0 ==> Valid(s1.temp) && Valid(s1.rh) && s1.temp.t == Int16 && s1.temp.prec == 1 && s1.rh.t == Int16 && s1.rh.prec == 1)
  {
    if Verified(b) {
      var d1 := Set(b.first.bytes).0;
      TempValue(d1.t, FULL_SCALE);
      RhValue(d1.h, FULL_SCALE);
    }
  }

  /** Every step keeps the invariant. */
  lemma StepKeepsGood(s: Hih, b: Bus)
    requires Good(s) && BusOk(b)
    ensures Good(Step(s, b).next)
  {
    if s.state != STATE_MEASURE {
      ReceiveShape(s, b);
    }
  }

  /**
   * `check` returns true exactly when a reading was taken, or when a failure (of the
   * command or of the fetches) cleared the readings: the fourth failure in a row after a
   * valid reading. A reading taken
   * is the first fetch converted, and the driver then waits five seconds with no error
   * and no retry counted.
   */
  lemma CheckResult(s: Hih, b: Bus)
    requires Good(s) && BusOk(b)
    ensures var e := Step(s, b);
      var taken := s.state == STATE_RECEIVE && Verified(b);
      var failed := if s.state == STATE_MEASURE then b.command != 0 else !Verified(b);
      && (e.result <==> taken || (failed && Valid(s.temp) && s.retryCount == RETRY_LIMIT))
      && (taken ==>
            && e.wait == WAIT && e.next.lastError == 0 && e.next.retryCount == 0 && e.next.state == STATE_MEASURE
            && e.next.temp == Temp(Set(b.first.bytes).0.t, FULL_SCALE) && e.next.rh == Rh(Set(b.first.bytes).0.h, FULL_SCALE))
  {
    if s.state != STATE_MEASURE {
      ReceiveShape(s, b);
    }
  }

  /**
   * A failed step keeps the phase-independent state but for the error, counts a retry
   * while a valid reading is held, and returns to the measurement after a second; a
   * failed measurement command is a failure too.
   */
  lemma FailureRetries(s: Hih, b: Bus)
    requires Good(s) && BusOk(b)
    requires s.state == STATE_MEASURE ==> b.command != 0
    requires s.state == STATE_RECEIVE ==> !Verified(b)
    ensures var e := Step(s, b);
      && e.wait == RETRY && e.next.state == STATE_MEASURE && e.next.lastError != 0
      && (Valid(s.temp) ==> e.next.retryCount == s.retryCount + 1)
      && (!Valid(s.temp) ==> e.next.retryCount == s.retryCount && e.next.temp == s.temp && e.next.rh == s.rh)
      && (Valid(s.temp) && s.retryCount < RETRY_LIMIT ==> e.next.temp == s.temp && e.next.rh == s.rh)
      && (Valid(s.temp) && s.retryCount == RETRY_LIMIT ==> !Valid(e.next.temp) && !Valid(e.next.rh))
  {
    if s.state != STATE_MEASURE {
      ReceiveShape(s, b);
    }
  }

  /** The two fetches as the sensor sends them: fresh data, then the same data marked stale. */
  function Honest(d: Data, command: int): Bus
    requires InRange(0, d)
  {
    Bus(command, Fetch(0, Pack(0, d)), Fetch(0, Pack(1, d)))
  }

  /** What `Data::set` reads from those fetches. */
  lemma HonestFetches(d: Data, command: int)
    requires InRange(0, d)
    ensures Set(Honest(d, command).first.bytes) == (d, 0) && Set(Honest(d, command).second.bytes) == (d, 1)
  {
    SetPack(0, d);
    SetPack(1, d);
  }

  /**
   * A full cycle with a sensor that answers: the command, then the reading of the words
   * sent, in tenths, with the calls transmit, receive keeping the bus, receive.
   */
  lemma FullCycle(s: Hih, d: Data)
    requires Good(s) && s.state == STATE_MEASURE && InRange(0, d)
    ensures var e1 := Step(s, Honest(d, 0)); var e2 := Step(e1.next, Honest(d, 0));
      && !e1.result && e1.wait == MEASURE && e2.result && e2.wait == WAIT
      && e2.next == s.(temp := Temp(d.t, FULL_SCALE), rh := Rh(d.h, FULL_SCALE), lastError := 0, retryCount := 0)
      && e1.calls == [Transmit(ADDR, 0)] && e2.calls == [Receive(ADDR, BYTES, true), Receive(ADDR, BYTES, false)]
  {
    var b := Honest(d, 0);
    var e1 := Step(s, b);
    assert e1 == Effect(s.(state := STATE_RECEIVE), false, MEASURE, [Transmit(ADDR, 0)]);
    HonestFetches(d, 0);
    var calls := [Receive(ADDR, BYTES, true), Receive(ADDR, BYTES, false)];
    var taken := e1.next.(temp := Temp(d.t, FULL_SCALE), rh := Rh(d.h, FULL_SCALE));
    ReceiveShape(e1.next, b);
    assert ReceiveStep(e1.next, b) == (0, taken, calls);
  }

  // ----------- Finding: the self-comparison -----------

  /**
   * As written, two fetches with different words pass: the comparison `data1.h !=
   * data1.h || data2.t != data2.t` never holds, so code 3 is never returned and the
   * reading taken is the first fetch whatever the second says.
   */
  lemma DifferentDataAccepted(s: Hih)
    requires Good(s) && s.state == STATE_RECEIVE
    ensures var b := Bus(0, Fetch(0, Pack(0, Data(100, 200))), Fetch(0, Pack(1, Data(5000, 6000))));
      Step(s, b).result && Step(s, b).next.rh == Rh(100, FULL_SCALE)
  {
    var b := Bus(0, Fetch(0, Pack(0, Data(100, 200))), Fetch(0, Pack(1, Data(5000, 6000))));
    SetPack(0, Data(100, 200));
    SetPack(1, Data(5000, 6000));
    CheckResult(s, b);
  }

  /** The test the comment describes: the second fetch's words differ from the first's. */
  predicate DiffersIntended(d1: Data, d2: Data)
  {
    d1.h != d2.h || d1.t != d2.t
  }

  /** `receive()` with the intended comparison: code 3 when the second fetch differs, otherwise as written. */
  function ReceiveIntended(s: Hih, b: Bus): (int, Hih, seq<Transfer>)
    requires BusOk(b)
  {
    var r := ReceiveStep(s, b);
    if r.0 == 0 && DiffersIntended(Set(b.first.bytes).0, Set(b.second.bytes).0) then (3, s, r.2) else r
  }

  /** With the intended comparison a reading is taken only when both fetches carry the same words. */
  lemma IntendedTakesAgreedData(s: Hih, b: Bus)
    requires Good(s) && BusOk(b)
    ensures ReceiveIntended(s, b).0 == 0 <==> Verified(b) && Set(b.first.bytes).0 == Set(b.second.bytes).0
    ensures ReceiveIntended(s, b).0 == 0 ==>
      ReceiveIntended(s, b).1 == s.(temp := Temp(Set(b.second.bytes).0.t, FULL_SCALE), rh := Rh(Set(b.second.bytes).0.h, FULL_SCALE))
  {
    ReceiveShape(s, b);
  }

  /** `check()` built on the intended `receive()`. */
  function StepIntended(s: Hih, b: Bus): Effect
    requires BusOk(b)
  {
    StepWith(s, b, ReceiveIntended(s, b))
  }

  /**
   * The intended step keeps the invariant, and a reading it takes is one both fetches
   * agree on.
   */
  lemma IntendedStepKeepsGood(s: Hih, b: Bus)
    requires Good(s) && BusOk(b)
    ensures Good(StepIntended(s, b).next)
    ensures s.state == STATE_RECEIVE && StepIntended(s, b).result && StepIntended(s, b).wait == WAIT ==>
      Verified(b) && Set(b.first.bytes).0 == Set(b.second.bytes).0
  {
    IntendedTakesAgreedData(s, b);
    StepKeepsGood(s, b);
  }

  // ----------- The driver -----------

  class Driver {
    var state: int
    var lastError: int
    var retryCount: int
    var temp: FixNum
    var rh: FixNum
    var bus: seq<Transfer>
    const timeout: T.Timeout

    function Snap(): Hih
      reads this
    {
      Hih(state, lastError, retryCount, temp, rh)
    }

    predicate Valid()
      reads this, timeout
    {
      timeout.Valid() && Good(Snap())
    }

    /**
     * `HIH()`: a timeout that fires at once (`_timeout(0)`); the other fields are those of
     * static storage: zero, and both readings invalid by their default constructor.
     */
    constructor(now: int)
      requires IsUInt32(now)
      ensures Valid() && fresh(timeout) && bus == []
      ensures Snap() == Hih(STATE_MEASURE, 0, 0, Invalid(Int16, 1), Invalid(Int16, 1))
      ensures timeout.time == T.Deadline(0, now)
    {
      timeout := new T.Timeout.Start(0, now);
      state, lastError, retryCount := STATE_MEASURE, 0, 0;
      temp, rh := Invalid(Int16, 1), Invalid(Int16, 1);
      bus := [];
    }

    /** `getTemp()` and `getRH()`: the readings held, invalid when none is. */
    function GetTemp(): (r: FixNum)
      reads this
      ensures r == temp
    {
      temp
    }

    function GetRH(): (r: FixNum)
      reads this
      ensures r == rh
    {
      rh
    }

    /** `getState()`: the last error in the high byte and the phase in the low byte. */
    function GetState(): (r: int)
      requires Valid()
      reads this, timeout
      ensures IsUInt16(r) && r / 256 == lastError && r % 256 == state
    {
      ToUInt16(lastError * 256 + state)
    }

    /** `receive()`: the two fetches, verified; the readings are stored on success. */
    method ReceiveData(b: Bus) returns (code: int)
      requires Valid() && BusOk(b)
      modifies this
      ensures var (c, s1, calls) := ReceiveStep(old(Snap()), b);
        code == c && Snap() == s1 && bus == old(bus) + calls
    {
      var keep := Receive(ADDR, BYTES, true);
      bus := bus + [keep];
      if b.first.status != 0 {
        return b.first.status;
      }
      var (d1, s1) := Set(b.first.bytes);
      if s1 != 0 {
        bus := bus + [Stop];
        return 1;
      }
      bus := bus + [Receive(ADDR, BYTES, false)];
      if b.second.status != 0 {
        return b.second.status;
      }
      var (d2, s2) := Set(b.second.bytes);
      if s2 != 1 {
        return 2;
      }
      if DiffersAsWritten(d1, d2) {
        return 3;
      }
      code := StoreReading(d1);
    }

    /** The conversions that end `receive()`. */
    method StoreReading(d: Data) returns (code: int)
      requires InRange(0, d)
      modifies this
      ensures (code, Snap()) == Store(old(Snap()), d) && bus == old(bus)
    {
      temp := Temp(d.t, FULL_SCALE);
      if !F.Valid(temp) {
        return 4;
      }
      rh := Rh(d.h, FULL_SCALE);
      if !F.Valid(rh) {
        return 5;
      }
      return 0;
    }

    /** `receive()` with the intended comparison: nothing is stored unless both fetches agree. */
    method ReceiveDataIntended(b: Bus) returns (code: int)
      requires Valid() && BusOk(b)
      modifies this
      ensures var (c, s1, calls) := ReceiveIntended(old(Snap()), b);
        code == c && Snap() == s1 && bus == old(bus) + calls
    {
      var s0 := Snap();
      code := ReceiveData(b);
      if code == 0 && DiffersIntended(Set(b.first.bytes).0, Set(b.second.bytes).0) {
        temp, rh := s0.temp, s0.rh;
        code := 3;
      }
    }

    /** `retry()`: back to the measurement in a second, counting or clearing as `Retry` says. */
    method RetryNow(now: int) returns (changed: bool)
      requires IsUInt32(now) && timeout.Valid()
      modifies this, timeout
      ensures (Snap(), changed) == Retry(old(Snap())) && bus == old(bus)
      ensures timeout.Valid() && timeout.time == T.Deadline(RETRY, now)
    {
      timeout.Reset(RETRY, now);
      state := STATE_MEASURE;
      if F.Valid(temp) {
        var count := retryCount;
        retryCount := ToUInt8(retryCount + 1);
        if count >= RETRY_LIMIT {
          temp := Invalid(Int16, 1);
          rh := Invalid(Int16, 1);
          return true;
        }
      }
      return false;
    }

    /** The measurement phase: the command, then the fetch 50 ms later, or a retry. */
    method MeasurePhase(now: int, b: Bus) returns (result: bool)
      requires Valid() && IsUInt32(now) && BusOk(b) && state == STATE_MEASURE
      modifies this, timeout
      ensures var e := Step(old(Snap()), b);
        && Snap() == e.next && result == e.result && timeout.time == T.Deadline(e.wait, now)
        && bus == old(bus) + e.calls && timeout.Valid()
    {
      bus := bus + [Transmit(ADDR, 0)];
      if b.command != 0 {
        lastError := b.command;
        result := RetryNow(now);
        return;
      }
      state := STATE_RECEIVE;
      timeout.Reset(MEASURE, now);
      return false;
    }

    /** The fetch phase: a reading taken and the next measurement in five seconds, or a retry. */
    method ReceivePhase(now: int, b: Bus) returns (result: bool)
      requires Valid() && IsUInt32(now) && BusOk(b) && state != STATE_MEASURE
      modifies this, timeout
      ensures var e := Step(old(Snap()), b);
        && Snap() == e.next && result == e.result && timeout.time == T.Deadline(e.wait, now)
        && bus == old(bus) + e.calls && timeout.Valid()
    {
      var code := ReceiveData(b);
      if code != 0 {
        lastError := code;
        result := RetryNow(now);
        return;
      }
      retryCount := 0;
      lastError := 0;
      state := STATE_MEASURE;
      timeout.Reset(WAIT, now);
      return true;
    }

    /**
     * `check()`: nothing before the timeout fires; then the step of `Step`, with the
     * timeout reset to its wait and the master calls logged.
     */
    method Check(now: int, b: Bus) returns (result: bool)
      requires Valid() && IsUInt32(now) && BusOk(b)
      modifies this, timeout
      ensures Valid()
      ensures !T.Fires(old(timeout.time), now) ==>
        !result && Snap() == old(Snap()) && timeout.time == old(timeout.time) && bus == old(bus)
      ensures T.Fires(old(timeout.time), now) ==>
        var e := Step(old(Snap()), b);
        && Snap() == e.next && result == e.result && timeout.time == T.Deadline(e.wait, now)
        && bus == old(bus) + e.calls
    {
      var fired := timeout.Check(now);
      if !fired {
        return false;
      }
      StepKeepsGood(Snap(), b);
      if state == STATE_MEASURE {
        result := MeasurePhase(now, b);
      } else {
        result := ReceivePhase(now, b);
      }
    }
  }
}
