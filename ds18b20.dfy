// `DS18B20`: an oversampling driver for the DS18B20 1-Wire thermometer. Every
// 750 ms it reads the raw temperature (1/16 degree) from the sensor's scratch
// pad into a queue of 12 slots, and `getTemp` averages the queued readings,
// dropping a high and a low one when there are more than two, into a fixnum16_2.
// Empty slots hold NO_VAL. The 1-Wire transactions belong to the OneWire
// library: their outcomes are parameters (a presence pulse, the nine scratch-pad
// bytes and the CRC the library computes over the first eight).
//
// The implementation uses `_head`, `_tail` and `DS18B20_SIZE` where the header
// declares `_index` and `QUEUE_SIZE`; the model has both indices as fields and
// a queue of QUEUE_SIZE = 12 slots.
module DS18B20 {
  import opened CInt
  import opened FixNumUtil
  import opened F = FixNum
  import T = Timeout
  import opened Oversampling

  const INTERVAL_MS: int := 750
  const SCRATCH_PAD_SIZE: nat := 9
  const FAIL_LIMIT: int := 3

  /** What `readScratchPad` finds on the bus: no presence pulse, or the pad bytes and the CRC of the first eight. */
  datatype Pad = Absent | Pad(data: seq<int>, crc: int)

  predicate PadWellFormed(p: Pad)
  {
    p.Pad? ==> |p.data| == SCRATCH_PAD_SIZE && forall i :: 0 <= i < |p.data| ==> IsUInt8(p.data[i])
  }

  /** The raw reading `readScratchPad` returns: (data[1] << 8) + data[0] as `int16_t`, or NO_VAL on failure. */
  function PadValue(p: Pad): (r: int)
    requires PadWellFormed(p)
    ensures IsInt16(r)
    ensures p.Absent? || p.crc != p.data[SCRATCH_PAD_SIZE - 1] ==> r == NO_VAL
  {
    if p.Absent? || p.crc != p.data[SCRATCH_PAD_SIZE - 1] then NO_VAL
    else ToInt16(p.data[1] * 256 + p.data[0])
  }

  /** The error code a failed read leaves in `_last_error`: 1 without presence, 2 on a CRC mismatch. */
  function PadError(p: Pad): int
    requires PadWellFormed(p)
  {
    if p.Absent? then 1 else if p.crc != p.data[SCRATCH_PAD_SIZE - 1] then 2 else 0
  }

  /** A good read is the two's-complement 16-bit word whose low byte is data[0] and high byte data[1]. */
  lemma PadValueBytes(p: Pad)
    requires PadWellFormed(p) && p.Pad? && p.crc == p.data[SCRATCH_PAD_SIZE - 1]
    ensures ToUInt16(PadValue(p)) % 256 == p.data[0] && ToUInt16(PadValue(p)) / 256 == p.data[1]
  {
    var w := p.data[1] * 256 + p.data[0];
    var v := PadValue(p);
    assert IsUInt16(w);
    assert v == w || v == w - TWO16;
    assert ToUInt16(v) == w;
  }

  // ----------- The averaging of `computeValue`, as functions of the queue -----------

  /** `lo` after the loop as written: `lo = min(hi, q[i])` over the samples, from INT_MAX. */
  function LoOf(q: seq<int>): int
  {
    if q == [] then NO_VAL
    else if Last(q) != NO_VAL then (if HiOf(q) <= Last(q) then HiOf(q) else Last(q))
    else LoOf(Front(q))
  }

  /** The sum that is divided as written: the high value and `lo` dropped when there are more than two samples. */
  function SumAsWritten(q: seq<int>): int
  {
    if CountOf(q) > 2 then SumOf(q) - HiOf(q) - LoOf(q) else SumOf(q)
  }

  /**
   * The mantissa `computeValue` stores: `temp_t(((long)sum * 100) / (count << 4))`.
   * `sum` is a 16-bit `int`: every `+=` and `-=` wraps on the AVR, so it ends as the
   * 16-bit value congruent to the exact sum (see `Wrap16`).
   */
  function Average(q: seq<int>): int
    requires CountOf(q) > 0
  {
    ToInt16(Div(ToInt16(SumAsWritten(q)) * 100, TrimmedCount(q) * 16))
  }

  /** Adding to a wrapped 16-bit sum wraps the exact sum: a running `int` total ends as `ToInt16` of the whole. */
  lemma Wrap16(a: int, b: int)
    ensures ToInt16(ToInt16(a) + b) == ToInt16(a + b)
  {
    var u := ToInt16(a);
    var k := (a - u) / TWO16;
    assert a - u == k * TWO16;
    assert (u + b) % TWO16 == (a + b) % TWO16 by {
      assert a + b == (u + b) + k * TWO16;
    }
  }

  /**
   * As written, the low value is not the smallest sample: `min(hi, q[i])` with hi
   * already raised to at least q[i] is q[i] itself, so the sample dropped as "low" is
   * the last one in slot order.
   */
  lemma {:induction false} LowIsLastSample(q: seq<int>)
    requires Slots16(q)
    ensures CountOf(q) == 0 ==> LoOf(q) == NO_VAL
    ensures CountOf(q) > 0 ==>
      exists k :: 0 <= k < |q| && q[k] == LoOf(q) != NO_VAL && forall j :: k < j < |q| ==> q[j] == NO_VAL
  {
    if q != [] {
      LowIsLastSample(Front(q));
      if Last(q) != NO_VAL {
        HiIsMaximum(q);
        assert q[|q| - 1] == Last(q) <= HiOf(q);
        assert LoOf(q) == q[|q| - 1];
      } else if CountOf(q) > 0 {
        var k :| 0 <= k < |Front(q)| && Front(q)[k] == LoOf(Front(q)) != NO_VAL
          && forall j :: k < j < |Front(q)| ==> Front(q)[j] == NO_VAL;
        assert q[k] == LoOf(q);
        assert forall j :: k < j < |q| ==> q[j] == NO_VAL by {
          forall j | k < j < |q| ensures q[j] == NO_VAL {
            if j < |q| - 1 {
              assert q[j] == Front(q)[j];
            }
          }
        }
      }
    }
  }

  /** Empty slots after the last sample do not change `lo`. */
  lemma {:induction false} LowEmptyTail(q: seq<int>, n: nat)
    ensures LoOf(q + seq(n, _ => NO_VAL)) == LoOf(q)
  {
    var e := q + seq(n, _ => NO_VAL);
    if n == 0 {
      assert e == q;
    } else {
      assert Front(e) == q + seq(n - 1, _ => NO_VAL);
      assert Last(e) == NO_VAL;
      LowEmptyTail(q, n - 1);
    }
  }

  /**
   * A queue holding 1.0, 5.0 and 3.0 degrees in its first slots: the sample dropped as
   * "low" is 3.0, not the smallest sample 1.0, which the intended minimum picks.
   */
  lemma LowIsNotMinimum()
    ensures var q := [16, 80, 48] + seq(9, _ => NO_VAL);
      LoOf(q) == 48 && MinOf(q) == 16 == q[0] < LoOf(q)
  {
    var s := [16, 80, 48];
    assert Front(s) == [16, 80] && Front([16, 80]) == [16] && Front([16]) == [];
    EmptyTail(s, 9);
    LowEmptyTail(s, 9);
  }

  /** The trimmed average as evidently intended: the largest and the smallest sample are dropped. */
  function IntendedAverage(q: seq<int>): int
    requires CountOf(q) > 0
  {
    ToInt16(Div(ToInt16(TrimmedSum(q)) * 100, TrimmedCount(q) * 16))
  }

  // ----------- The sensor's range: -55 to +125 degrees in 1/16 degree -----------

  const SENSOR_MIN: int := -55 * 16
  const SENSOR_MAX: int := 125 * 16

  /** Every slot is empty or holds a reading the DS18B20 can produce. */
  predicate InSensorRange(q: seq<int>)
  {
    forall k :: 0 <= k < |q| ==> q[k] == NO_VAL || SENSOR_MIN <= q[k] <= SENSOR_MAX
  }

  /** The samples of a queue in the sensor's range add up to at most `count` readings at either end. */
  lemma {:induction false} SensorSum(q: seq<int>)
    requires InSensorRange(q)
    ensures SENSOR_MIN * CountOf(q) <= SumOf(q) <= SENSOR_MAX * CountOf(q) && CountOf(q) <= |q|
  {
    if q != [] {
      assert InSensorRange(Front(q));
      SensorSum(Front(q));
    }
  }

  /** The highest sample, the smallest and the one `lo` ends at are all readings from the sensor's range. */
  lemma ExtremesInRange(q: seq<int>)
    requires InSensorRange(q) && CountOf(q) > 0
    ensures SENSOR_MIN <= HiOf(q) <= SENSOR_MAX && SENSOR_MIN <= MinOf(q) <= SENSOR_MAX
    ensures SENSOR_MIN <= LoOf(q) <= SENSOR_MAX
  {
    assert Slots16(q);
    HiIsMaximum(q);
    MinIsMinimum(q);
    LowIsLastSample(q);
  }

  /**
   * With at most 12 readings from the sensor's range, the 16-bit `int sum` never wraps,
   * as written or as intended, and the as-written average divides the exact trimmed sum.
   */
  lemma SensorRangeNoWrap(q: seq<int>)
    requires InSensorRange(q) && |q| == QUEUE_SIZE
    ensures ToInt16(SumAsWritten(q)) == SumAsWritten(q) && ToInt16(TrimmedSum(q)) == TrimmedSum(q)
    ensures CountOf(q) > 0 ==> Average(q) == ToInt16(Div(SumAsWritten(q) * 100, TrimmedCount(q) * 16))
  {
    SensorSum(q);
    assert -10560 <= SumOf(q) <= 24000;
    if CountOf(q) > 0 {
      ExtremesInRange(q);
    }
  }

  /**
   * The corrected average lies between the smallest and the largest sample, in 1/100
   * degree: the readings are in 1/16 degree, so the bounds are `Div(x * 100, 16)`.
   */
  lemma IntendedAverageBetween(q: seq<int>)
    requires InSensorRange(q) && |q| == QUEUE_SIZE && CountOf(q) > 0
    ensures Div(MinOf(q) * 100, 16) <= IntendedAverage(q) <= Div(HiOf(q) * 100, 16)
  {
    SensorRangeNoWrap(q);
    assert Slots16(q);
    TrimmedWithinRange(q);
    ExtremesInRange(q);
    QuotientBetween(TrimmedSum(q), TrimmedCount(q), MinOf(q), HiOf(q));
  }

  /** A sum of c readings between m and h, times 100 over 16c, lies between m and h times 100 over 16, within 16 bits. */
  lemma QuotientBetween(s: int, c: int, m: int, h: int)
    requires c > 0 && m * c <= s <= h * c && SENSOR_MIN <= m && h <= SENSOR_MAX
    ensures Div(m * 100, 16) <= Div(s * 100, c * 16) <= Div(h * 100, 16)
    ensures IsInt16(Div(s * 100, c * 16))
  {
    MulLe(m * c, s, 100);
    MulLe(s, h * c, 100);
    assert m * 100 * c <= s * 100 <= h * 100 * c;
    DivMonotone(m * 100 * c, s * 100, c * 16);
    DivMonotone(s * 100, h * 100 * c, c * 16);
    DivCancel(m * 100, c, 16);
    DivCancel(h * 100, c, 16);
    assert 16 * c == c * 16;
    DivMonotone(SENSOR_MIN * 100, m * 100, 16);
    DivMonotone(h * 100, SENSOR_MAX * 100, 16);
  }

  /**
   * Outside the sensor's range the sum wraps: two readings of 20000 add up to 40000,
   * which the 16-bit `sum` holds as -25536, and the stored mantissa is -14264.
   */
  lemma SumWrapsOutsideSensorRange()
    ensures var q := [20000, 20000] + seq(10, _ => NO_VAL);
      CountOf(q) == 2 && SumAsWritten(q) == 40000 && ToInt16(SumAsWritten(q)) == -25536 && Average(q) == -14264
  {
    var s := [20000, 20000];
    assert Front(s) == [20000] && Front([20000]) == [];
    assert SumOf(s) == 40000 && CountOf(s) == 2;
    EmptyTail(s, 10);
    var q := s + seq(10, _ => NO_VAL);
    assert SumAsWritten(q) == 40000 && TrimmedCount(q) == 2;
    assert ToInt16(40000) == -25536;
    assert Div(-2553600, 32) == -79800;
  }

  /** Writing a sample at the write index keeps the samples exactly in the window, which grows by one up to the whole queue. */
  lemma EnqueueWindow(q0: seq<int>, t0: int, s0: int, val: int, q1: seq<int>)
    requires |q0| == QUEUE_SIZE && 0 <= t0 < QUEUE_SIZE && 0 <= s0 <= QUEUE_SIZE && val != NO_VAL
    requires forall i :: 0 <= i < QUEUE_SIZE ==> (q0[i] != NO_VAL <==> InWindow(i, t0, s0))
    requires q1 == q0[t0 := val]
    ensures var s1 := if s0 == QUEUE_SIZE then QUEUE_SIZE else s0 + 1;
      forall i :: 0 <= i < QUEUE_SIZE ==> (q1[i] != NO_VAL <==> InWindow(i, (t0 + 1) % QUEUE_SIZE, s1))
  {
    if s0 == QUEUE_SIZE {
      WindowFull(t0);
    } else {
      WindowGrows(t0, s0);
    }
  }

  /** The loop of `computeValue()` as written: the 16-bit running `sum`, `count`, `hi` and `lo` over the slots. */
  method Accumulate(queue: array<int>) returns (sum: int, count: int, hi: int, lo: int)
    requires queue.Length == QUEUE_SIZE
    ensures sum == ToInt16(SumOf(queue[..])) && count == CountOf(queue[..])
    ensures hi == HiOf(queue[..]) && lo == LoOf(queue[..])
  {
    ghost var q := queue[..];
    hi, lo, sum, count := INT_MIN, NO_VAL, 0, 0;
    var i := 0;
    while i < QUEUE_SIZE
      invariant 0 <= i <= QUEUE_SIZE
      invariant sum == ToInt16(SumOf(q[..i])) && count == CountOf(q[..i])
      invariant hi == HiOf(q[..i]) && lo == LoOf(q[..i])
    {
      assert Front(q[..i + 1]) == q[..i];
      if queue[i] != NO_VAL {
        Wrap16(SumOf(q[..i]), queue[i]);
        sum := ToInt16(sum + queue[i]);
        hi := if hi >= queue[i] then hi else queue[i];
        lo := if hi <= queue[i] then hi else queue[i];
        count := count + 1;
      }
      i := i + 1;
    }
    assert q[..QUEUE_SIZE] == q;
  }

  /** The same loop with `lo = min(lo, q[i])`: `lo` is the smallest sample. */
  method AccumulateIntended(queue: array<int>) returns (sum: int, count: int, hi: int, lo: int)
    requires queue.Length == QUEUE_SIZE
    ensures sum == ToInt16(SumOf(queue[..])) && count == CountOf(queue[..])
    ensures hi == HiOf(queue[..]) && lo == MinOf(queue[..])
  {
    ghost var q := queue[..];
    hi, lo, sum, count := INT_MIN, NO_VAL, 0, 0;
    var i := 0;
    while i < QUEUE_SIZE
      invariant 0 <= i <= QUEUE_SIZE
      invariant sum == ToInt16(SumOf(q[..i])) && count == CountOf(q[..i])
      invariant hi == HiOf(q[..i]) && lo == MinOf(q[..i])
    {
      assert Front(q[..i + 1]) == q[..i];
      if queue[i] != NO_VAL {
        Wrap16(SumOf(q[..i]), queue[i]);
        sum := ToInt16(sum + queue[i]);
        hi := if hi >= queue[i] then hi else queue[i];
        lo := if lo <= queue[i] then lo else queue[i];
        count := count + 1;
      }
      i := i + 1;
    }
    assert q[..QUEUE_SIZE] == q;
  }

  /**
   * The outliers dropped after the loop: with more than two samples `hi` and `lo` come
   * off the 16-bit sum, which wraps again, and the count drops by two.
   */
  method Trim(sum0: int, count0: int, hi: int, lo: int, ghost s: int) returns (sum: int, count: int)
    requires sum0 == ToInt16(s)
    ensures count0 > 2 ==> sum == ToInt16(s - hi - lo) && count == count0 - 2
    ensures count0 <= 2 ==> sum == sum0 && count == count0
  {
    sum, count := sum0, count0;
    if count > 2 {
      Wrap16(s, -hi);
      sum := ToInt16(sum - hi);
      Wrap16(s - hi, -lo);
      sum := ToInt16(sum - lo);
      count := count - 2;
    }
  }

  // ----------- The fields `check()` changes, as a value -----------

  /** The fields of `DS18B20` that `check()`, `fail()` and `clear()` change. */
  datatype Fields = Fields(queue: seq<int>, head: int, tail: int, size: int, failCount: int, lastError: int, value: FixNum)

  /**
   * The invariant of those fields: 12 slots, each a 16-bit value; the samples occupy
   * exactly the `size` slots before `tail`; the failure count stays within its limit.
   */
  predicate Good(s: Fields)
  {
    && |s.queue| == QUEUE_SIZE && 0 <= s.tail < QUEUE_SIZE && 0 <= s.size <= QUEUE_SIZE
    && 0 <= s.failCount <= FAIL_LIMIT && IsUInt8(s.lastError)
    && Slots16(s.queue)
    && (forall i :: 0 <= i < QUEUE_SIZE ==> (s.queue[i] != NO_VAL <==> InWindow(i, s.tail, s.size)))
    && s.value.t == Int16 && s.value.prec == 2 && InType(Int16, s.value.mantissa)
  }

  /** `clear()`: every slot NO_VAL, no samples and no value; the indices, the failure count and the error stay. */
  function ClearFields(s: Fields): (r: Fields)
    requires Good(s)
    ensures Good(r) && r.size == 0 && r.tail == s.tail && r.failCount == s.failCount
  {
    s.(queue := seq(QUEUE_SIZE, _ => NO_VAL), size := 0, value := Invalid(Int16, 2))
  }

  /** `fail()`: at FAIL_LIMIT the queue is cleared, below it the failure is counted. */
  function FailFields(s: Fields): (r: Fields)
    requires Good(s)
    ensures Good(r) && r.tail == s.tail && r.lastError == s.lastError
    ensures r.failCount == if s.failCount < FAIL_LIMIT then s.failCount + 1 else FAIL_LIMIT
  {
    if s.failCount >= FAIL_LIMIT then ClearFields(s) else s.(failCount := s.failCount + 1)
  }

  /**
   * A good sample queued: a full queue first gives up its oldest slot (the one at
   * `tail`), then the sample is written at `tail`, which moves on round the queue.
   */
  function EnqueueFields(s: Fields, val: int): (r: Fields)
    requires Good(s) && IsInt16(val) && val != NO_VAL
    ensures Good(r) && r.size > 0 && r.queue[s.tail] == val
  {
    EnqueueWindow(s.queue, s.tail, s.size, val, s.queue[s.tail := val]);
    s.(queue := s.queue[s.tail := val], tail := (s.tail + 1) % QUEUE_SIZE,
       size := if s.size == QUEUE_SIZE then QUEUE_SIZE else s.size + 1,
       head := if s.size == QUEUE_SIZE && s.head == QUEUE_SIZE then 0 else s.head)
  }

  /** `startConversion()` after the timeout is reset: without a presence pulse, error 3 and a `fail()`. */
  function ConversionFields(s: Fields, present: bool): (r: Fields)
    requires Good(s)
    ensures Good(r) && r.tail == s.tail
  {
    if present then s else FailFields(s.(lastError := 3))
  }

  /** The error `readScratchPad()` leaves: its own code on a failure, else the previous one. */
  function ReadError(s: Fields, pad: Pad): int
    requires PadWellFormed(pad)
  {
    if PadError(pad) != 0 then PadError(pad) else s.lastError
  }

  /**
   * `check()` once the conversion time is up: a good reading is queued, the failure
   * count, the error and the cached value reset, with result true; a bad one leaves the
   * read's error and is a `fail()`. Either way the next conversion is started.
   */
  function CheckFields(s: Fields, pad: Pad, present: bool): (r: (Fields, bool))
    requires Good(s) && PadWellFormed(pad)
    ensures Good(r.0)
  {
    var v := PadValue(pad);
    var s1 :=
      if v == NO_VAL then FailFields(s.(lastError := ReadError(s, pad)))
      else EnqueueFields(s.(failCount := 0), v).(value := Invalid(Int16, 2), lastError := 0);
    (ConversionFields(s1, present), v != NO_VAL)
  }

  /**
   * A check whose reading is good reports true and queues it: it is written at `tail`,
   * `tail` moves on, the samples grow up to 12 and the cached value is dropped; the
   * failure count and the error restart at 0, or are 1 and 3 when no device answers the
   * conversion.
   */
  lemma CheckSucceeds(s: Fields, pad: Pad, present: bool)
    requires Good(s) && PadWellFormed(pad) && PadValue(pad) != NO_VAL
    ensures var r := CheckFields(s, pad, present);
      && r.1
      && r.0.queue == s.queue[s.tail := PadValue(pad)]
      && r.0.tail == (s.tail + 1) % QUEUE_SIZE
      && r.0.size == (if s.size == QUEUE_SIZE then QUEUE_SIZE else s.size + 1)
      && r.0.value == Invalid(Int16, 2)
      && r.0.failCount == (if present then 0 else 1)
      && r.0.lastError == (if present then 0 else 3)
  {
  }

  /**
   * A check whose reading is bad reports false and leaves the read's error (1 without a
   * device, 2 on a CRC mismatch), or 3 when no device answers the conversion either. It
   * counts one failure, two without that answer. While that stays within FAIL_LIMIT
   * nothing else changes; past it the count stays at FAIL_LIMIT and the samples and the
   * value are gone.
   */
  lemma CheckFails(s: Fields, pad: Pad, present: bool)
    requires Good(s) && PadWellFormed(pad) && PadValue(pad) == NO_VAL
    ensures var k := if present then 1 else 2;
      var e := if present then ReadError(s, pad) else 3;
      CheckFields(s, pad, present) ==
        if s.failCount + k <= FAIL_LIMIT then (s.(failCount := s.failCount + k, lastError := e), false)
        else (ClearFields(s).(failCount := FAIL_LIMIT, lastError := e), false)
  {
    var s1 := FailFields(s.(lastError := ReadError(s, pad)));
    if !present && s1.failCount == FAIL_LIMIT && s.failCount == FAIL_LIMIT {
      assert FailFields(s1.(lastError := 3)) == ClearFields(s1).(lastError := 3);
    }
  }

  /** What one `check()` meets on the bus: the scratch pad read, then the presence pulse of the conversion. */
  datatype Attempt = Attempt(pad: Pad, present: bool)

  /** The fields after a run of checks, one attempt per check. */
  function Checks(s: Fields, run: seq<Attempt>): (r: Fields)
    requires Good(s) && forall k :: 0 <= k < |run| ==> PadWellFormed(run[k].pad)
    ensures Good(r)
    decreases |run|
  {
    if run == [] then s else Checks(CheckFields(s, run[0].pad, run[0].present).0, run[1..])
  }

  /**
   * Bad readings in a row empty the queue: after FAIL_LIMIT + 1 of them (fewer when
   * failures were already counted), whatever the conversions meet, no sample and no
   * value is left and the failure count rests at FAIL_LIMIT.
   */
  lemma {:induction false} FailingChecksClear(s: Fields, run: seq<Attempt>)
    requires Good(s) && forall k :: 0 <= k < |run| ==> PadWellFormed(run[k].pad) && PadValue(run[k].pad) == NO_VAL
    requires s.failCount + |run| > FAIL_LIMIT
    ensures var r := Checks(s, run);
      r == ClearFields(s).(failCount := FAIL_LIMIT, lastError := r.lastError)
    ensures Checks(s, run).queue == seq(QUEUE_SIZE, _ => NO_VAL) && !F.Valid(Checks(s, run).value)
    decreases |run|
  {
    var r := CheckFields(s, run[0].pad, run[0].present).0;
    CheckFails(s, run[0].pad, run[0].present);
    if |run| > 1 {
      FailingChecksClear(r, run[1..]);
      var t := Checks(r, run[1..]);
      assert ClearFields(r).(failCount := FAIL_LIMIT, lastError := t.lastError)
          == ClearFields(s).(failCount := FAIL_LIMIT, lastError := t.lastError);
    } else {
      assert run[1..] == [];
    }
  }

  class DS18B20 {
    const queue: array<int>
    var head: int
    var tail: int
    var size: int
    var failCount: int
    var lastError: int
    var value: FixNum
    const timeout: T.Timeout

    /** The fields `check()` changes, as a value. */
    function Snap(): Fields
      reads this, queue
    {
      Fields(queue[..], head, tail, size, failCount, lastError, value)
    }

    /** The fields keep `Good`, and the timeout is well formed. */
    predicate Valid()
      reads this, queue, timeout
    {
      queue.Length == QUEUE_SIZE && Good(Snap()) && timeout.Valid()
    }

    /**
     * `DS18B20(pin)`: the queue is cleared and the first conversion started (the
     * indices and counters keep the zero of static storage); `present` is the presence
     * pulse of the 1-Wire reset that starts the conversion.
     */
    constructor(now: int, present: bool)
      requires IsUInt32(now)
      ensures Valid() && fresh(queue) && fresh(timeout)
      ensures size == 0 && !F.Valid(value) && timeout.time == T.Deadline(INTERVAL_MS, now)
      ensures present ==> lastError == 0 && failCount == 0
      ensures !present ==> lastError == 3 && failCount == 1
    {
      queue := new int[QUEUE_SIZE](_ => NO_VAL);
      head, tail, size, failCount, lastError := 0, 0, 0, 0, 0;
      value := Invalid(Int16, 2);
      timeout := new T.Timeout();
      new;
      Clear();
      StartConversion(now, present);
    }

    /** `clear()`: every slot empty, no samples, no value. */
    method Clear()
      requires queue.Length == QUEUE_SIZE
      modifies this, queue
      ensures queue[..] == seq(QUEUE_SIZE, _ => NO_VAL)
      ensures size == 0 && value == Invalid(Int16, 2)
      ensures head == old(head) && tail == old(tail) && failCount == old(failCount) && lastError == old(lastError)
    {
      var i := 0;
      while i < QUEUE_SIZE
        invariant 0 <= i <= QUEUE_SIZE
        invariant forall j :: 0 <= j < i ==> queue[j] == NO_VAL
        modifies queue
      {
        queue[i] := NO_VAL;
        i := i + 1;
      }
      size := 0;
      value := Invalid(Int16, 2);
    }

    /** `fail()`: at the limit the queue is cleared, below it the failure is counted. */
    method Fail()
      requires Valid()
      modifies this, queue
      ensures Valid()
      ensures old(failCount) >= FAIL_LIMIT ==>
        queue[..] == seq(QUEUE_SIZE, _ => NO_VAL) && size == 0 && value == Invalid(Int16, 2) && failCount == old(failCount)
      ensures old(failCount) < FAIL_LIMIT ==>
        queue[..] == old(queue[..]) && size == old(size) && value == old(value) && failCount == old(failCount) + 1
      ensures tail == old(tail) && head == old(head) && lastError == old(lastError)
      ensures Snap() == FailFields(old(Snap()))
    {
      if failCount >= FAIL_LIMIT {
        Clear();
      } else {
        failCount := failCount + 1;
      }
    }

    /** `startConversion()`: the next reading is due in 750 ms; a missing presence pulse is error 3 and a failure. */
    method StartConversion(now: int, present: bool)
      requires Valid() && IsUInt32(now)
      modifies this, queue, timeout
      ensures Valid() && timeout.time == T.Deadline(INTERVAL_MS, now)
      ensures present ==>
        && queue[..] == old(queue[..]) && size == old(size) && value == old(value)
        && failCount == old(failCount) && lastError == old(lastError)
      ensures !present ==> lastError == 3 && failCount == (if old(failCount) >= FAIL_LIMIT then old(failCount) else old(failCount) + 1)
      ensures !present && old(failCount) >= FAIL_LIMIT ==>
        size == 0 && queue[..] == seq(QUEUE_SIZE, _ => NO_VAL) && value == Invalid(Int16, 2)
      ensures !present && old(failCount) < FAIL_LIMIT ==>
        size == old(size) && queue[..] == old(queue[..]) && value == old(value)
      ensures tail == old(tail) && head == old(head)
      ensures Snap() == ConversionFields(old(Snap()), present)
    {
      timeout.Reset(INTERVAL_MS, now);
      if !present {
        lastError := 3;
        Fail();
      }
    }

    /** `readScratchPad()`: the raw reading, or NO_VAL with error 1 (no presence) or 2 (CRC mismatch). */
    method ReadScratchPad(pad: Pad) returns (val: int)
      requires PadWellFormed(pad) && IsUInt8(lastError)
      modifies this
      ensures val == PadValue(pad)
      ensures lastError == (if PadError(pad) != 0 then PadError(pad) else old(lastError))
      ensures tail == old(tail) && head == old(head) && size == old(size)
      ensures failCount == old(failCount) && value == old(value)
    {
      if pad.Absent? {
        lastError := 1;
        return NO_VAL;
      }
      if pad.crc != pad.data[SCRATCH_PAD_SIZE - 1] {
        lastError := 2;
        return NO_VAL;
      }
      return ToInt16(pad.data[1] * 256 + pad.data[0]);
    }

    /**
     * Queues a good sample at `tail`: a full queue first gives up its oldest slot
     * (the one at `tail`), then the sample is written and `tail` moves on round the queue.
     */
    method Enqueue(val: int)
      requires Valid() && IsInt16(val) && val != NO_VAL
      modifies this, queue
      ensures Valid()
      ensures queue[..] == old(queue[..])[old(tail) := val]
      ensures tail == (old(tail) + 1) % QUEUE_SIZE
      ensures size == (if old(size) == QUEUE_SIZE then QUEUE_SIZE else old(size) + 1)
      ensures head == (if old(size) == QUEUE_SIZE && old(head) == QUEUE_SIZE then 0 else old(head))
      ensures failCount == old(failCount) && lastError == old(lastError) && value == old(value)
      ensures Snap() == EnqueueFields(old(Snap()), val)
    {
      ghost var s0 := Snap();
      if size == QUEUE_SIZE {
        if head == QUEUE_SIZE {
          head := 0;
        }
        size := size - 1;
      }
      queue[tail] := val;
      assert queue[..] == s0.queue[s0.tail := val];
      tail := tail + 1;
      if tail == QUEUE_SIZE {
        tail := 0;
      }
      size := size + 1;
      assert Snap() == EnqueueFields(s0, val);
    }

    /**
     * `check()`: nothing happens before the conversion time is up. Then the fields and
     * the result are those of `CheckFields`: a good reading is queued, clears the failure
     * count, the error and the cached value and is reported; a bad one leaves the read's
     * error and counts as a failure. Either way the next conversion is started.
     */
    method Check(now: int, pad: Pad, present: bool) returns (ok: bool)
      requires Valid() && IsUInt32(now) && PadWellFormed(pad)
      modifies this, queue, timeout
      ensures Valid()
      ensures !T.Fires(old(timeout.time), now) ==>
        && !ok && queue[..] == old(queue[..]) && size == old(size)
        && tail == old(tail) && value == old(value) && failCount == old(failCount) && lastError == old(lastError)
        && timeout.time == old(timeout.time)
      ensures T.Fires(old(timeout.time), now) ==>
        ok == (PadValue(pad) != NO_VAL) && timeout.time == T.Deadline(INTERVAL_MS, now)
      ensures T.Fires(old(timeout.time), now) && ok ==>
        && tail == (old(tail) + 1) % QUEUE_SIZE
        && size == (if old(size) == QUEUE_SIZE then QUEUE_SIZE else old(size) + 1)
      ensures T.Fires(old(timeout.time), now) && ok && present ==>
        && queue[..] == old(queue[..])[old(tail) := PadValue(pad)]
        && failCount == 0 && lastError == 0 && !F.Valid(value)
      ensures T.Fires(old(timeout.time), now) ==> (Snap(), ok) == CheckFields(old(Snap()), pad, present)
    {
      var fired := timeout.Check(now);
      if !fired {
        return false;
      }
      ghost var s0 := Snap();
      ok := Fired(now, pad, present);
      if PadValue(pad) != NO_VAL {
        CheckSucceeds(s0, pad, present);
      }
    }

    /** The part of `check()` after the conversion time is up: the reading, then the next conversion. */
    method Fired(now: int, pad: Pad, present: bool) returns (ok: bool)
      requires Valid() && IsUInt32(now) && PadWellFormed(pad)
      modifies this, queue, timeout
      ensures Valid() && timeout.time == T.Deadline(INTERVAL_MS, now)
      ensures (Snap(), ok) == CheckFields(old(Snap()), pad, present)
    {
      ghost var s0 := Snap();
      var val := ReadScratchPad(pad);
      assert Snap() == s0.(lastError := ReadError(s0, pad));
      ok := false;
      if val == NO_VAL {
        Fail();
      } else {
        failCount := 0;
        assert Snap() == s0.(failCount := 0);
        Enqueue(val);
        value := Invalid(Int16, 2);
        lastError := 0;
        ok := true;
      }
      StartConversion(now, present);
    }

    /** `computeValue()`: the trimmed average of the samples in slot order, in 1/100 degree. */
    method ComputeValue()
      requires Valid() && size > 0
      modifies this
      ensures Valid() && CountOf(queue[..]) > 0
      ensures value == FixNum(Int16, 2, Average(queue[..]))
      ensures size == old(size) && tail == old(tail) && failCount == old(failCount) && lastError == old(lastError)
    {
      ghost var q := queue[..];
      NewestInWindow(tail, size);
      CountPositive(q, (tail + QUEUE_SIZE - 1) % QUEUE_SIZE);
      var sum, count, hi, lo := Accumulate(queue);
      sum, count := Trim(sum, count, hi, lo, SumOf(q));
      value := FixNum(Int16, 2, ToInt16(Div(sum * 100, count * 16)));
    }

    /** `computeValue()` as evidently intended: `lo = min(lo, q[i])`, so the smallest sample is dropped. */
    method ComputeValueIntended()
      requires Valid() && size > 0
      modifies this
      ensures Valid() && CountOf(queue[..]) > 0
      ensures value == FixNum(Int16, 2, IntendedAverage(queue[..]))
      ensures size == old(size) && tail == old(tail) && failCount == old(failCount) && lastError == old(lastError)
    {
      ghost var q := queue[..];
      NewestInWindow(tail, size);
      CountPositive(q, (tail + QUEUE_SIZE - 1) % QUEUE_SIZE);
      var sum, count, hi, lo := AccumulateIntended(queue);
      sum, count := Trim(sum, count, hi, lo, SumOf(q));
      value := FixNum(Int16, 2, ToInt16(Div(sum * 100, count * 16)));
    }

    /** `getTemp()`: the cached value, recomputed first when it is invalid and there are samples. */
    method GetTemp() returns (r: FixNum)
      requires Valid()
      modifies this
      ensures Valid()
      ensures !F.Valid(old(value)) && size > 0 ==> CountOf(queue[..]) > 0 && r == value == FixNum(Int16, 2, Average(queue[..]))
      ensures F.Valid(old(value)) || size == 0 ==> r == value == old(value)
    {
      if !F.Valid(value) && size > 0 {
        ComputeValue();
      }
      return value;
    }
  }
}
