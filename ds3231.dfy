// `DS3231`: the driver of the DS3231 real-time clock on the I2C bus, and
// `DS3231Temp`, which oversamples the chip's temperature sensor once a second
// into a queue of 12 slots. The bus calls of the shared TWI master
// (`transmitReceive`, `transmit`) are abstract here: each is one step whose
// outcome, a status byte (0 on success) and the bytes read, is a parameter,
// and the transfers the driver asks for are recorded in `bus`. The temperature
// class extends the clock class in C++; here it holds its clock object.
module DS3231 {
  import opened CInt
  import opened FixNumUtil
  import opened F = FixNum
  import T = Timeout
  import opened Oversampling
  import opened DS3231Time

  const ADDRESS: int := 0x68
  const SEC_REG: int := 0x00
  const CONTROL_REG: int := 0x0E
  const STATUS_REG: int := 0x0F
  const TMP_UP_REG: int := 0x11

  /** One bus transfer with the chip: a record written, or `count` bytes read from register `reg` on. */
  datatype Transfer = Write(addr: int, record: seq<int>) | Read(addr: int, reg: int, count: nat)

  /** All bytes. */
  predicate Bytes8(s: seq<int>)
  {
    forall k :: 0 <= k < |s| ==> IsUInt8(s[k])
  }

  /** `x & 0b10111111`: bit 6 of a byte cleared. */
  function ClearBit6(x: int): (r: int)
    requires IsUInt8(x)
    ensures IsUInt8(r) && r % 64 == x % 64 && r / 128 == x / 128 && r / 64 % 2 == 0
  {
    if x / 64 % 2 == 1 then x - 64 else x
  }

  /**
   * The record `adjust(dt)` transmits: the seconds register address, then second,
   * minute, hour (bit 6 of the binary hour cleared), a zero day of week, date, month
   * and year, each in BCD.
   */
  function AdjustRecord(dt: DateTime): (r: seq<int>)
    requires Bytes(dt)
    ensures |r| == 8 && Bytes8(r)
  {
    [SEC_REG, Bin2Bcd(dt.ss), Bin2Bcd(dt.mm), Bin2Bcd(ClearBit6(dt.hh)), 0,
     Bin2Bcd(dt.d), Bin2Bcd(dt.m), Bin2Bcd(dt.y)]
  }

  /**
   * The date-time `now()` decodes from the seven registers from the seconds on:
   * the hour with bits 6 and 7 (the 12/24-hour flags) masked, the day of week skipped.
   */
  function DecodeRegisters(regs: seq<int>): (dt: DateTime)
    requires |regs| == 7 && Bytes8(regs)
    ensures Bytes(dt)
  {
    DateTime(Bcd2Bin(regs[6]), Bcd2Bin(regs[5]), Bcd2Bin(regs[4]), Bcd2Bin(regs[2] % 64),
             Bcd2Bin(regs[1]), Bcd2Bin(regs[0]))
  }

  /**
   * What `adjust(dt)` writes, `now()` reads back: every date-time whose fields have two
   * digits and whose hour fits the six-bit hour register.
   */
  lemma AdjustThenNow(dt: DateTime)
    requires TwoDigits(dt) && dt.hh < 40
    ensures DecodeRegisters(AdjustRecord(dt)[1..]) == dt
  {
    var r := AdjustRecord(dt)[1..];
    BcdRoundTrip(dt.y);
    BcdRoundTrip(dt.m);
    BcdRoundTrip(dt.d);
    HourRoundTrip(dt.hh);
    BcdRoundTrip(dt.mm);
    BcdRoundTrip(dt.ss);
    assert r[0] == Bin2Bcd(dt.ss) && r[1] == Bin2Bcd(dt.mm) && r[2] == Bin2Bcd(ClearBit6(dt.hh));
    assert r[4] == Bin2Bcd(dt.d) && r[5] == Bin2Bcd(dt.m) && r[6] == Bin2Bcd(dt.y);
  }

  /** An hour below 40 passes the bit-6 clear unchanged and its BCD byte the bit-6/7 mask. */
  lemma HourRoundTrip(h: int)
    requires 0 <= h < 40
    ensures Bcd2Bin(Bin2Bcd(ClearBit6(h)) % 64) == h
  {
    assert ClearBit6(h) == h;
    BcdRoundTrip(h);
    var b := Bin2Bcd(h);
    assert h / 10 <= 3;
    assert b / 16 <= 3;
    assert b < 64;
    SmallHourByte(b);
    assert Bin2Bcd(ClearBit6(h)) % 64 == b;
    assert Bcd2Bin(b) == h;
  }

  /** A byte below 64 passes the bit-6/7 mask unchanged. */
  lemma SmallHourByte(b: int)
    requires 0 <= b < 64
    ensures b % 64 == b
  {
  }

  /** A BCD hour byte below 64 is decoded to an hour below 40, which the bit-6 clear keeps. */
  lemma HourBack(b: int)
    requires IsBcd(b) && b < 64
    ensures Bcd2Bin(b % 64) < 40 && ClearBit6(Bcd2Bin(b % 64)) == Bcd2Bin(b % 64)
    ensures Bin2Bcd(ClearBit6(Bcd2Bin(b % 64))) == b
  {
    assert b % 64 == b;
    BinRoundTrip(b);
    assert b / 16 <= 3;
  }

  /**
   * What `now()` reads from BCD registers in 24-hour mode, `adjust` writes back: the same
   * registers, except the day of week, which becomes 0.
   */
  lemma NowThenAdjust(regs: seq<int>)
    requires |regs| == 7 && Bytes8(regs) && regs[2] < 64
    requires IsBcd(regs[0]) && IsBcd(regs[1]) && IsBcd(regs[2]) && IsBcd(regs[4]) && IsBcd(regs[5]) && IsBcd(regs[6])
    ensures AdjustRecord(DecodeRegisters(regs))[1..] == regs[3 := 0]
  {
    var r := AdjustRecord(DecodeRegisters(regs))[1..];
    BinRoundTrip(regs[0]);
    BinRoundTrip(regs[1]);
    HourBack(regs[2]);
    BinRoundTrip(regs[4]);
    BinRoundTrip(regs[5]);
    BinRoundTrip(regs[6]);
    assert r[0] == regs[0] && r[1] == regs[1] && r[2] == regs[2] && r[3] == 0;
    assert r[4] == regs[4] && r[5] == regs[5] && r[6] == regs[6];
  }

  /** A valid date-time passes `AdjustThenNow`'s requirement. */
  lemma ValidIsTwoDigits(dt: DateTime)
    requires IsValid(dt)
    ensures TwoDigits(dt) && dt.hh < 40
  {
  }

  /** `statusReg &= 0b11111110`: the alarm 1 flag (bit 0) cleared. */
  function ClearBit0(x: int): (r: int)
    requires IsUInt8(x)
    ensures IsUInt8(r) && r % 2 == 0 && r / 2 == x / 2
  {
    x - x % 2
  }

  /** `ctReg |= 0b00100000`: the CONV bit (bit 5) set. */
  function SetBit5(x: int): (r: int)
    requires IsUInt8(x)
    ensures IsUInt8(r) && r / 32 % 2 == 1 && r % 32 == x % 32 && r / 64 == x / 64
  {
    if x / 32 % 2 == 1 then x else x + 32
  }

  /**
   * The date-time `now()` returns as written: the decoded registers, or on a bus error
   * the indeterminate fields of `DateTime()`, here whatever `stale` holds.
   */
  function NowValue(status: int, regs: seq<int>, stale: DateTime): (dt: DateTime)
    requires |regs| == 7 && Bytes8(regs)
    ensures status != 0 ==> dt == stale
    ensures status == 0 ==> dt == DecodeRegisters(regs)
  {
    if status != 0 then stale else DecodeRegisters(regs)
  }

  /** The date-time `now()` is meant to return: on a bus error the all-zero one, which is not set. */
  function NowIntendedValue(status: int, regs: seq<int>): (dt: DateTime)
    requires |regs| == 7 && Bytes8(regs)
    ensures status != 0 ==> !IsSet(dt)
    ensures status == 0 ==> dt == DecodeRegisters(regs)
  {
    if status != 0 then UNSET else DecodeRegisters(regs)
  }

  /**
   * After a failed transfer, `now()` as written may return a date-time that
   * `operator bool` reports as set, for instance bytes left from 09-12-26 12:34:56,
   * while the intended result is never set.
   */
  lemma FailedNowMayLookSet(status: int, regs: seq<int>)
    requires status != 0 && |regs| == 7 && Bytes8(regs)
    ensures IsSet(NowValue(status, regs, DateTime(9, 12, 26, 12, 34, 56)))
    ensures !IsSet(NowIntendedValue(status, regs))
  {
  }

  /** The clock: the status of the last bus transfer and the transfers so far. */
  class DS3231 {
    var lastError: int
    var bus: seq<Transfer>

    /** A statically allocated clock: no error and nothing sent yet. */
    constructor()
      ensures lastError == 0 && bus == []
    {
      lastError := 0;
      bus := [];
    }

    /** `readRegister(reg)`: the register's value, or 0 when the transfer fails; the status is the last error. */
    method ReadRegister(reg: int, status: int, value: int) returns (r: int)
      requires IsUInt8(reg) && IsUInt8(status) && IsUInt8(value)
      modifies this
      ensures bus == old(bus) + [Read(ADDRESS, reg, 1)] && lastError == status
      ensures IsUInt8(r) && r == (if status == 0 then value else 0)
    {
      var result := 0;
      bus := bus + [Read(ADDRESS, reg, 1)];
      lastError := status;
      if status == 0 {
        result := value;
      }
      return result;
    }

    /** `writeRegister(reg, value)`: transmits the register address and the value; true on success. */
    method WriteRegister(reg: int, value: int, status: int) returns (ok: bool)
      requires IsUInt8(reg) && IsUInt8(value) && IsUInt8(status)
      modifies this
      ensures bus == old(bus) + [Write(ADDRESS, [reg, value])] && lastError == status
      ensures ok == (status == 0)
    {
      bus := bus + [Write(ADDRESS, [reg, value])];
      lastError := status;
      return lastError == 0;
    }

    /** `adjust(dt)`: transmits the BCD record of dt from the seconds register on; true on success. */
    method Adjust(dt: DateTime, status: int) returns (ok: bool)
      requires Bytes(dt) && IsUInt8(status)
      modifies this
      ensures bus == old(bus) + [Write(ADDRESS, AdjustRecord(dt))] && lastError == status
      ensures ok == (status == 0)
    {
      var buf := [SEC_REG, Bin2Bcd(dt.ss), Bin2Bcd(dt.mm), Bin2Bcd(ClearBit6(dt.hh)), 0,
                  Bin2Bcd(dt.d), Bin2Bcd(dt.m), Bin2Bcd(dt.y)];
      bus := bus + [Write(ADDRESS, buf)];
      lastError := status;
      return lastError == 0;
    }

    /**
     * `now()`: reads seven registers from the seconds on. On a bus error it returns
     * `DateTime()`, whose constructor is user-provided and empty, so the six byte fields
     * are left indeterminate: `stale` stands for whatever bytes they hold.
     */
    method Now(status: int, regs: seq<int>, stale: DateTime) returns (dt: DateTime)
      requires IsUInt8(status) && |regs| == 7 && Bytes8(regs) && Bytes(stale)
      modifies this
      ensures bus == old(bus) + [Read(ADDRESS, SEC_REG, 7)] && lastError == status
      ensures dt == NowValue(status, regs, stale) && Bytes(dt)
    {
      bus := bus + [Read(ADDRESS, SEC_REG, 7)];
      lastError := status;
      if lastError != 0 {
        return stale;
      }
      var ss := Bcd2Bin(regs[0]);
      var mm := Bcd2Bin(regs[1]);
      var hh := Bcd2Bin(regs[2] % 64);
      var d := Bcd2Bin(regs[4]);
      var m := Bcd2Bin(regs[5]);
      var y := Bcd2Bin(regs[6]);
      return DateTime(y, m, d, hh, mm, ss);
    }

    /** `now()` as evidently intended: the all-zero, unset date-time on a bus error. */
    method NowIntended(status: int, regs: seq<int>) returns (dt: DateTime)
      requires IsUInt8(status) && |regs| == 7 && Bytes8(regs)
      modifies this
      ensures bus == old(bus) + [Read(ADDRESS, SEC_REG, 7)] && lastError == status
      ensures dt == NowIntendedValue(status, regs)
      ensures status != 0 ==> dt == UNSET && !IsSet(dt)
      ensures status == 0 ==> dt == DecodeRegisters(regs)
    {
      bus := bus + [Read(ADDRESS, SEC_REG, 7)];
      lastError := status;
      if lastError != 0 {
        return UNSET;
      }
      return DecodeRegisters(regs);
    }

    /**
     * `clearINTStatus()`: reads the status register and writes it back with the alarm
     * flag cleared; a failed read writes nothing. True when both transfers succeed.
     */
    method ClearINTStatus(readStatus: int, value: int, writeStatus: int) returns (ok: bool)
      requires IsUInt8(readStatus) && IsUInt8(value) && IsUInt8(writeStatus)
      modifies this
      ensures readStatus != 0 ==> !ok && bus == old(bus) + [Read(ADDRESS, STATUS_REG, 1)] && lastError == readStatus
      ensures readStatus == 0 ==>
        && bus == old(bus) + [Read(ADDRESS, STATUS_REG, 1), Write(ADDRESS, [STATUS_REG, ClearBit0(value)])]
        && lastError == writeStatus && ok == (writeStatus == 0)
    {
      var statusReg := ReadRegister(STATUS_REG, readStatus, value);
      if lastError != 0 {
        return false;
      }
      statusReg := statusReg - statusReg % 2;
      ok := WriteRegister(STATUS_REG, statusReg, writeStatus);
    }
  }

  // ----------- DS3231Temp -----------

  /** `TEMP_INTERVAL`: a reading every second. */
  const TEMP_INTERVAL: int := 1000
  const FAIL_LIMIT: int := 3

  /**
   * `readTemp()` on a good transfer: `(int16_t(msb) << 2) | (uint8_t(lsb) >> 6)`, the
   * signed whole degrees and the two fraction bits, in 1/4 degree. The shifted value has
   * its low two bits clear, so the OR adds.
   */
  function Reading(msb: int, lsb: int): (r: int)
    requires IsUInt8(msb) && IsUInt8(lsb)
    ensures -512 <= r <= 511
  {
    4 * ToInt8(msb) + lsb / 64
  }

  /** A good reading is never NO_VAL, so a read that succeeds is always queued. */
  lemma ReadingIsSample(msb: int, lsb: int)
    requires IsUInt8(msb) && IsUInt8(lsb)
    ensures Reading(msb, lsb) != NO_VAL
  {
  }

  /**
   * Every temperature in 1/4 degree from -128 to 127.75 degrees, stored by the chip as
   * its two's-complement upper 8 bits in the upper register and its lowest two bits at
   * the top of the lower one, is read back as itself.
   */
  lemma ReadingRoundTrip(v: int)
    requires -512 <= v <= 511
    ensures Reading(ToUInt8(v / 4), (v % 4) * 64) == v
  {
    assert ToInt8(ToUInt8(v / 4)) == v / 4;
  }

  /** A slot holds a reading (1/4 degree, from the 10 bits of the sensor) or NO_VAL. */
  predicate Samples(q: seq<int>)
  {
    forall k :: 0 <= k < |q| ==> q[k] == NO_VAL || -512 <= q[k] <= 511
  }

  /** The mantissa `computeTemp` stores: `temp_t(((long)sum * 100) / (count << 2))`, the trimmed average in 1/100 degree. */
  function Average(q: seq<int>): int
    requires CountOf(q) > 0
  {
    ToInt16(Div(TrimmedSum(q) * 100, TrimmedCount(q) * 4))
  }

  /** The average lies between the smallest and the largest sample, in 1/100 degree. */
  lemma AverageBetweenSamples(q: seq<int>)
    requires Samples(q) && CountOf(q) > 0
    ensures MinOf(q) * 25 <= Average(q) <= HiOf(q) * 25
  {
    assert Slots16(q);
    AverageBetween(q, 4);
    MinIsMinimum(q);
    HiIsMaximum(q);
    var a := Div(TrimmedSum(q) * 100, TrimmedCount(q) * 4);
    assert -12800 <= a <= 12775;
  }

  // ----------- The fields `check()` changes, as a value -----------

  /** The fields of `DS3231Temp` that `check()`, `fail()` and `clear()` change. */
  datatype TempState = TempState(queue: seq<int>, index: int, size: int, failCount: int, temp: FixNum)

  /**
   * The invariant of those fields: 12 slots, each a reading or NO_VAL; the readings
   * occupy exactly the `size` slots before the write index; the failure count stays
   * within its limit; and there is no cached value without samples.
   */
  predicate GoodTemp(s: TempState)
  {
    && |s.queue| == QUEUE_SIZE && 0 <= s.index < QUEUE_SIZE && 0 <= s.size <= QUEUE_SIZE
    && 0 <= s.failCount <= FAIL_LIMIT
    && Samples(s.queue)
    && (forall i :: 0 <= i < QUEUE_SIZE ==> (s.queue[i] != NO_VAL <==> InWindow(i, s.index, s.size)))
    && s.temp.t == Int16 && s.temp.prec == 2 && InType(Int16, s.temp.mantissa)
    && (s.size == 0 ==> s.temp == Invalid(Int16, 2))
  }

  /** Without samples every slot is already empty. */
  lemma EmptyQueue(s: TempState)
    requires GoodTemp(s) && s.size == 0
    ensures s.queue == seq(QUEUE_SIZE, _ => NO_VAL)
  {
    assert forall i :: 0 <= i < QUEUE_SIZE ==> !InWindow(i, s.index, 0);
  }

  /** `clear()`: every slot NO_VAL, no samples and no value; the write index and the failure count stay. */
  function ClearState(s: TempState): (r: TempState)
    requires GoodTemp(s)
    ensures GoodTemp(r) && r.size == 0 && r.index == s.index && r.failCount == s.failCount
  {
    s.(queue := seq(QUEUE_SIZE, _ => NO_VAL), size := 0, temp := Invalid(Int16, 2))
  }

  /**
   * `fail()`: below FAIL_LIMIT the failure is counted; at the limit the samples are
   * dropped, and the result says whether there were any to drop.
   */
  function FailState(s: TempState): (r: (TempState, bool))
    requires GoodTemp(s)
    ensures GoodTemp(r.0) && r.0.index == s.index
    ensures r.1 <==> s.failCount == FAIL_LIMIT && s.size > 0
    ensures r.0.failCount == if s.failCount < FAIL_LIMIT then s.failCount + 1 else FAIL_LIMIT
    ensures s.failCount == FAIL_LIMIT ==> r.0 == ClearState(s)
  {
    if s.failCount >= FAIL_LIMIT then
      if s.size == 0 then EmptyQueue(s); (s, false) else (ClearState(s), true)
    else (s.(failCount := s.failCount + 1), false)
  }

  /**
   * A reading queued: written at the write index, which moves on and wraps to 0 at 12;
   * the samples grow up to 12, after which the oldest is overwritten.
   */
  function EnqueueState(s: TempState, val: int): (r: TempState)
    requires GoodTemp(s) && -512 <= val <= 511
    ensures GoodTemp(r) && r.size > 0 && r.queue[s.index] == val
  {
    if s.size < QUEUE_SIZE then WindowGrows(s.index, s.size); Enqueued(s, val)
    else WindowFull(s.index); Enqueued(s, val)
  }

  /** The fields after writing val at the write index (helper of `EnqueueState`). */
  function Enqueued(s: TempState, val: int): TempState
    requires 0 <= s.index < |s.queue|
  {
    s.(queue := s.queue[s.index := val], index := (s.index + 1) % QUEUE_SIZE,
       size := if s.size < QUEUE_SIZE then s.size + 1 else QUEUE_SIZE)
  }

  /** The bus outcomes one `check()` meets: the temperature read's status and bytes, then the statuses of the control register read and write. */
  datatype Outcome = Outcome(tempStatus: int, msb: int, lsb: int, readStatus: int, writeStatus: int)

  predicate OutcomeBytes(o: Outcome)
  {
    IsUInt8(o.tempStatus) && IsUInt8(o.msb) && IsUInt8(o.lsb) && IsUInt8(o.readStatus) && IsUInt8(o.writeStatus)
  }

  /** Whether `startConversion()` meets a failed transfer. */
  predicate ConversionFails(o: Outcome)
  {
    o.readStatus != 0 || o.writeStatus != 0
  }

  /** `startConversion()`: a failed read or write of the control register is a `fail()`; otherwise nothing changes and the result is false. */
  function ConversionState(s: TempState, failed: bool): (r: (TempState, bool))
    requires GoodTemp(s)
    ensures GoodTemp(r.0)
  {
    if failed then FailState(s) else (s, false)
  }

  /**
   * `check()` once the second is up: a good reading is queued, the failure count
   * restarted and the cached value dropped, with result true; a failed read is a
   * `fail()`. Then the conversion is started, and its result is or-ed in.
   */
  function CheckState(s: TempState, o: Outcome): (r: (TempState, bool))
    requires GoodTemp(s) && OutcomeBytes(o)
    ensures GoodTemp(r.0)
  {
    var (s1, read) :=
      if o.tempStatus != 0 then FailState(s)
      else (EnqueueState(s.(failCount := 0), Reading(o.msb, o.lsb)).(temp := Invalid(Int16, 2)), true);
    var (s2, started) := ConversionState(s1, ConversionFails(o));
    (s2, read || started)
  }

  /**
   * A check whose read succeeds reports true and queues the reading: it is written at
   * the write index, the index moves on, the samples grow up to 12, the cached value is
   * dropped, and the failure count restarts at 0 (1 when the conversion then fails).
   */
  lemma CheckSucceeds(s: TempState, o: Outcome)
    requires GoodTemp(s) && OutcomeBytes(o) && o.tempStatus == 0
    ensures var r := CheckState(s, o);
      && r.1
      && r.0.queue == s.queue[s.index := Reading(o.msb, o.lsb)]
      && r.0.index == (s.index + 1) % QUEUE_SIZE
      && r.0.size == (if s.size < QUEUE_SIZE then s.size + 1 else QUEUE_SIZE)
      && r.0.temp == Invalid(Int16, 2)
      && r.0.failCount == (if ConversionFails(o) then 1 else 0)
  {
  }

  /**
   * A check whose read fails counts one failure, two when the conversion fails too.
   * While that stays within FAIL_LIMIT nothing else changes and the result is false.
   * Past the limit the count stays at FAIL_LIMIT, the samples and the value are gone,
   * and the result says whether there were samples to drop.
   */
  lemma CheckFails(s: TempState, o: Outcome)
    requires GoodTemp(s) && OutcomeBytes(o) && o.tempStatus != 0
    ensures var k := if ConversionFails(o) then 2 else 1;
      CheckState(s, o) ==
        if s.failCount + k <= FAIL_LIMIT then (s.(failCount := s.failCount + k), false)
        else (ClearState(s).(failCount := FAIL_LIMIT), s.size > 0)
  {
    var (s1, read) := FailState(s);
    if ConversionFails(o) && s1.failCount == FAIL_LIMIT {
      var s2 := FailState(s1).0;
      if s.failCount == FAIL_LIMIT {
        assert s2 == ClearState(s1);
      }
    }
  }

  /** The fields after a run of checks, one outcome per check. */
  function Checks(s: TempState, run: seq<Outcome>): (r: TempState)
    requires GoodTemp(s) && forall k :: 0 <= k < |run| ==> OutcomeBytes(run[k])
    ensures GoodTemp(r)
    decreases |run|
  {
    if run == [] then s else Checks(CheckState(s, run[0]).0, run[1..])
  }

  /**
   * Failed reads in a row empty the queue: after FAIL_LIMIT + 1 of them (fewer when
   * failures were already counted), whatever the conversions meet, no sample and no
   * value is left and the failure count rests at FAIL_LIMIT.
   */
  lemma {:induction false} FailingChecksClear(s: TempState, run: seq<Outcome>)
    requires GoodTemp(s) && forall k :: 0 <= k < |run| ==> OutcomeBytes(run[k]) && run[k].tempStatus != 0
    requires s.failCount + |run| > FAIL_LIMIT
    ensures Checks(s, run) == ClearState(s).(failCount := FAIL_LIMIT)
    ensures Checks(s, run).queue == seq(QUEUE_SIZE, _ => NO_VAL) && !F.Valid(Checks(s, run).temp)
    decreases |run|
  {
    var r := CheckState(s, run[0]).0;
    CheckFails(s, run[0]);
    if |run| > 1 {
      FailingChecksClear(r, run[1..]);
      assert ClearState(r).(failCount := FAIL_LIMIT) == ClearState(s).(failCount := FAIL_LIMIT);
    } else {
      assert run[1..] == [];
    }
  }

  /** The transfers `startConversion()` makes: the control register read, then its write-back with CONV set unless the read failed. */
  function ConversionBus(readStatus: int, ctrl: int): (r: seq<Transfer>)
    requires IsUInt8(ctrl)
    ensures |r| == (if readStatus != 0 then 1 else 2) && r[0] == Read(ADDRESS, CONTROL_REG, 1)
  {
    if readStatus != 0 then [Read(ADDRESS, CONTROL_REG, 1)]
    else [Read(ADDRESS, CONTROL_REG, 1), Write(ADDRESS, [CONTROL_REG, SetBit5(ctrl)])]
  }

  /** `DS3231Temp`. */
  class Temp {
    const rtc: DS3231
    const timeout: T.Timeout
    const queue: array<int>
    var index: int
    var size: int
    var failCount: int
    var temp: FixNum

    /** The fields `check()` changes, as a value. */
    function Snap(): TempState
      reads this, queue
    {
      TempState(queue[..], index, size, failCount, temp)
    }

    /** The fields keep `GoodTemp`, and the timeout is well formed. */
    predicate Valid()
      reads this, queue, timeout
    {
      queue.Length == QUEUE_SIZE && GoodTemp(Snap()) && timeout.Valid()
    }

    /**
     * `DS3231Temp()`: the timeout is started for a second, the queue cleared and the first
     * conversion started (the write index and the failure count keep the zero of static
     * storage). The statuses and the control register value are those of that conversion.
     */
    constructor(now: int, readStatus: int, ctrl: int, writeStatus: int)
      requires IsUInt32(now) && IsUInt8(readStatus) && IsUInt8(ctrl) && IsUInt8(writeStatus)
      ensures Valid() && fresh(rtc) && fresh(queue) && fresh(timeout)
      ensures size == 0 && index == 0 && !F.Valid(temp) && timeout.time == T.Deadline(TEMP_INTERVAL, now)
      ensures failCount == (if readStatus == 0 && writeStatus == 0 then 0 else 1)
    {
      rtc := new DS3231();
      timeout := new T.Timeout.Start(TEMP_INTERVAL, now);
      queue := new int[QUEUE_SIZE](_ => NO_VAL);
      index, size, failCount := 0, 0, 0;
      temp := Invalid(Int16, 2);
      new;
      Clear();
      var _ := StartConversion(readStatus, ctrl, writeStatus);
    }

    /** `clear()`: every slot empty, no samples, no value; the write index stays. */
    method Clear()
      requires queue.Length == QUEUE_SIZE
      modifies this, queue
      ensures queue[..] == seq(QUEUE_SIZE, _ => NO_VAL)
      ensures size == 0 && temp == Invalid(Int16, 2)
      ensures index == old(index) && failCount == old(failCount)
    {
      var i := 0;
      while i < QUEUE_SIZE
        invariant 0 <= i <= QUEUE_SIZE
        invariant forall j :: 0 <= j < i ==> queue[j] == NO_VAL
        modifies queue
      {
        queue[i] := NO_VAL;
        i := i + 1;
      }
      size := 0;
      temp := Invalid(Int16, 2);
    }

    /**
     * `fail()`: below the limit the failure is counted; at the limit the samples are
     * dropped, and the result says whether there were any to drop.
     */
    method Fail() returns (cleared: bool)
      requires Valid()
      modifies this, queue
      ensures Valid() && index == old(index)
      ensures cleared == (old(failCount) >= FAIL_LIMIT && old(size) > 0)
      ensures old(failCount) < FAIL_LIMIT ==>
        queue[..] == old(queue[..]) && size == old(size) && temp == old(temp) && failCount == old(failCount) + 1
      ensures old(failCount) >= FAIL_LIMIT ==> failCount == old(failCount) && size == 0
      ensures cleared ==> queue[..] == seq(QUEUE_SIZE, _ => NO_VAL) && temp == Invalid(Int16, 2)
      ensures !cleared && old(failCount) >= FAIL_LIMIT ==> queue[..] == old(queue[..]) && temp == old(temp)
      ensures (Snap(), cleared) == FailState(old(Snap()))
    {
      if failCount >= FAIL_LIMIT {
        if size == 0 {
          return false;
        }
        Clear();
        return true;
      } else {
        failCount := failCount + 1;
        return false;
      }
    }

    /**
     * `startConversion()`: sets the CONV bit of the control register by a read and a
     * write; a failed transfer is a failure. The result is only ever that of `fail()`.
     */
    method StartConversion(readStatus: int, ctrl: int, writeStatus: int) returns (r: bool)
      requires Valid() && IsUInt8(readStatus) && IsUInt8(ctrl) && IsUInt8(writeStatus)
      modifies this, queue, rtc
      ensures Valid() && index == old(index)
      ensures readStatus != 0 ==>
        rtc.bus == old(rtc.bus) + [Read(ADDRESS, CONTROL_REG, 1)] && rtc.lastError == readStatus
      ensures readStatus == 0 ==>
        && rtc.bus == old(rtc.bus) + [Read(ADDRESS, CONTROL_REG, 1), Write(ADDRESS, [CONTROL_REG, SetBit5(ctrl)])]
        && rtc.lastError == writeStatus
      ensures readStatus == 0 && writeStatus == 0 ==>
        && !r && queue[..] == old(queue[..]) && size == old(size) && temp == old(temp) && failCount == old(failCount)
      ensures readStatus != 0 || writeStatus != 0 ==>
        && r == (old(failCount) >= FAIL_LIMIT && old(size) > 0)
        && failCount == (if old(failCount) >= FAIL_LIMIT then old(failCount) else old(failCount) + 1)
      ensures old(failCount) < FAIL_LIMIT || !r ==> queue[..] == old(queue[..]) && temp == old(temp)
      ensures old(failCount) < FAIL_LIMIT ==> size == old(size)
      ensures r ==> size == 0 && queue[..] == seq(QUEUE_SIZE, _ => NO_VAL) && temp == Invalid(Int16, 2)
      ensures (Snap(), r) == ConversionState(old(Snap()), readStatus != 0 || writeStatus != 0)
    {
      var ctReg := rtc.ReadRegister(CONTROL_REG, readStatus, ctrl);
      if rtc.lastError != 0 {
        r := Fail();
        return;
      }
      ctReg := SetBit5(ctReg);
      var ok := rtc.WriteRegister(CONTROL_REG, ctReg, writeStatus);
      if !ok {
        r := Fail();
        return;
      }
      return false;
    }

    /** `readTemp()`: the reading of the two temperature registers, or NO_VAL when the transfer fails. */
    method ReadTemp(status: int, msb: int, lsb: int) returns (val: int)
      requires IsUInt8(status) && IsUInt8(msb) && IsUInt8(lsb)
      modifies rtc
      ensures rtc.bus == old(rtc.bus) + [Read(ADDRESS, TMP_UP_REG, 2)] && rtc.lastError == status
      ensures val == (if status == 0 then Reading(msb, lsb) else NO_VAL)
    {
      rtc.bus := rtc.bus + [Read(ADDRESS, TMP_UP_REG, 2)];
      rtc.lastError := status;
      if rtc.lastError != 0 {
        return NO_VAL;
      }
      return 4 * ToInt8(msb) + lsb / 64;
    }

    /**
     * Queues a reading at the write index, which then moves on and wraps to 0 at 12; the
     * number of samples grows up to 12, after which the oldest is overwritten.
     */
    method Enqueue(val: int)
      requires Valid() && -512 <= val <= 511
      modifies this, queue
      ensures Valid()
      ensures queue[..] == old(queue[..])[old(index) := val]
      ensures index == (old(index) + 1) % QUEUE_SIZE
      ensures size == (if old(size) < QUEUE_SIZE then old(size) + 1 else QUEUE_SIZE)
      ensures failCount == old(failCount) && temp == old(temp)
      ensures Snap() == EnqueueState(old(Snap()), val)
    {
      ghost var t0 := index;
      ghost var q0 := queue[..];
      queue[index] := val;
      assert queue[..] == q0[t0 := val];
      index := index + 1;
      if index == QUEUE_SIZE {
        index := 0;
      }
      if size < QUEUE_SIZE {
        WindowGrows(t0, size);
        size := size + 1;
      } else {
        WindowFull(t0);
      }
    }

    /**
     * `check()`: nothing happens before the second is up. Then the timeout is restarted
     * and the fields and the result are those of `CheckState`: a good reading is queued,
     * clears the failure count and the cached value and is reported; a failed read is a
     * `fail()`. Either way the next conversion is started, and a `fail()` there that
     * drops the samples is reported too.
     */
    method Check(now: int, tempStatus: int, msb: int, lsb: int, readStatus: int, ctrl: int, writeStatus: int)
      returns (result: bool)
      requires Valid() && IsUInt32(now)
      requires IsUInt8(tempStatus) && IsUInt8(msb) && IsUInt8(lsb)
      requires IsUInt8(readStatus) && IsUInt8(ctrl) && IsUInt8(writeStatus)
      modifies this, queue, timeout, rtc
      ensures Valid()
      ensures !T.Fires(old(timeout.time), now) ==>
        && !result && queue[..] == old(queue[..]) && size == old(size) && index == old(index)
        && temp == old(temp) && failCount == old(failCount) && timeout.time == old(timeout.time)
        && rtc.bus == old(rtc.bus)
      ensures T.Fires(old(timeout.time), now) ==> timeout.time == T.Deadline(TEMP_INTERVAL, now)
      ensures T.Fires(old(timeout.time), now) && tempStatus == 0 ==>
        && result && index == (old(index) + 1) % QUEUE_SIZE
        && size == (if old(size) < QUEUE_SIZE then old(size) + 1 else QUEUE_SIZE)
      ensures T.Fires(old(timeout.time), now) && tempStatus == 0 && readStatus == 0 && writeStatus == 0 ==>
        && queue[..] == old(queue[..])[old(index) := Reading(msb, lsb)]
        && failCount == 0 && !F.Valid(temp)
      ensures T.Fires(old(timeout.time), now) && tempStatus != 0 ==> index == old(index)
      ensures T.Fires(old(timeout.time), now) ==>
        && (Snap(), result) == CheckState(old(Snap()), Outcome(tempStatus, msb, lsb, readStatus, writeStatus))
        && rtc.bus == old(rtc.bus) + [Read(ADDRESS, TMP_UP_REG, 2)] + ConversionBus(readStatus, ctrl)
        && rtc.lastError == (if readStatus != 0 then readStatus else writeStatus)
    {
      var fired := timeout.Check(now);
      if !fired {
        return false;
      }
      ghost var s0 := Snap();
      var o := Outcome(tempStatus, msb, lsb, readStatus, writeStatus);
      result := Fired(now, tempStatus, msb, lsb, readStatus, ctrl, writeStatus);
      if tempStatus == 0 {
        CheckSucceeds(s0, o);
      } else {
        CheckFails(s0, o);
      }
    }

    /** The part of `check()` after the timeout has fired: the reading, then the next conversion. */
    method Fired(now: int, tempStatus: int, msb: int, lsb: int, readStatus: int, ctrl: int, writeStatus: int)
      returns (result: bool)
      requires Valid() && IsUInt32(now)
      requires IsUInt8(tempStatus) && IsUInt8(msb) && IsUInt8(lsb)
      requires IsUInt8(readStatus) && IsUInt8(ctrl) && IsUInt8(writeStatus)
      modifies this, queue, timeout, rtc
      ensures Valid() && timeout.time == T.Deadline(TEMP_INTERVAL, now)
      ensures (Snap(), result) == CheckState(old(Snap()), Outcome(tempStatus, msb, lsb, readStatus, writeStatus))
      ensures rtc.bus == old(rtc.bus) + [Read(ADDRESS, TMP_UP_REG, 2)] + ConversionBus(readStatus, ctrl)
      ensures rtc.lastError == (if readStatus != 0 then readStatus else writeStatus)
    {
      ghost var s0 := Snap();
      timeout.Reset(TEMP_INTERVAL, now);
      var val := ReadTemp(tempStatus, msb, lsb);
      assert Snap() == s0;
      if val == NO_VAL {
        result := Fail();
      } else {
        failCount := 0;
        assert Snap() == s0.(failCount := 0);
        Enqueue(val);
        temp := Invalid(Int16, 2);
        result := true;
      }
      var started := StartConversion(readStatus, ctrl, writeStatus);
      result := result || started;
    }

    /** `computeTemp()`: the trimmed average of the samples in slot order, in 1/100 degree. */
    method ComputeTemp()
      requires Valid() && size > 0
      modifies this
      ensures Valid() && CountOf(queue[..]) > 0
      ensures temp == FixNum(Int16, 2, Average(queue[..]))
      ensures size == old(size) && index == old(index) && failCount == old(failCount)
    {
      ghost var q := queue[..];
      var hi, lo, sum, count := INT_MIN, NO_VAL, 0, 0;
      var i := 0;
      while i < QUEUE_SIZE
        invariant 0 <= i <= QUEUE_SIZE
        invariant sum == SumOf(q[..i]) && count == CountOf(q[..i])
        invariant hi == HiOf(q[..i]) && lo == MinOf(q[..i])
      {
        assert Front(q[..i + 1]) == q[..i];
        if queue[i] != NO_VAL {
          sum := sum + queue[i];
          hi := if hi >= queue[i] then hi else queue[i];
          lo := if lo <= queue[i] then lo else queue[i];
          count := count + 1;
        }
        i := i + 1;
      }
      assert q[..QUEUE_SIZE] == q;
      var j := (index + QUEUE_SIZE - 1) % QUEUE_SIZE;
      assert InWindow(j, index, size);
      CountPositive(q, j);
      if count > 2 {
        sum := sum - hi;
        sum := sum - lo;
        count := count - 2;
      }
      temp := FixNum(Int16, 2, ToInt16(Div(sum * 100, count * 4)));
    }

    /** `getTemp()`: the cached value, recomputed first when it is invalid and there are samples. */
    method GetTemp() returns (r: FixNum)
      requires Valid()
      modifies this
      ensures Valid()
      ensures !F.Valid(old(temp)) && size > 0 ==> CountOf(queue[..]) > 0 && r == temp == FixNum(Int16, 2, Average(queue[..]))
      ensures F.Valid(old(temp)) || size == 0 ==> r == temp == old(temp)
    {
      if !F.Valid(temp) && size > 0 {
        ComputeTemp();
      }
      return temp;
    }
  }
}
