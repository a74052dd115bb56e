// `SHT1X`: the bit-banged driver of the Sensirion SHT1x temperature and
// humidity sensor. `check` runs a four-phase cycle, one phase per timeout:
// command a temperature measurement, read it half a second later, command a
// humidity measurement, read it, then cool down for nine seconds. Every word
// read is verified by the sensor's CRC-8, which covers the command sent as well
// as the data. A failed phase is retried every 500 ms; sixty failures in all
// reset the sensor.
//
// The data pin is outside the model: what the sensor drives on it during one
// `check` (the acknowledgement of a command, the end of a measurement, the 24
// bits of a reply) is a `Response` parameter. The float polynomials that turn
// the raw words into degrees and percent are left out, so the readings are the
// raw words they are computed from.
module SHT1X {
  import opened CInt
  import opened SHT1XCrc
  import T = Timeout

  const RESET_INTERVAL: int := 1000
  const MEAS_INTERVAL: int := 500
  const COOLDOWN_INTERVAL: int := 9000
  const RETRY_INTERVAL: int := 500
  const FAIL_RESET_THRESHOLD: int := 60

  // ----------- The sensor state -----------

  /** `_state`: the phase `check` performs next. */
  datatype Phase = MeasTemp | ReadTemp | MeasRH | ReadRH

  datatype Option<X> = None | Some(value: X)

  /** A humidity reading: the raw word and the raw temperature word it is corrected with. */
  datatype RhReading = RhReading(word: bv16, tempWord: bv16)

  /**
   * The driver's state: the phase, the error code of the last failure, the failure
   * count, and the readings as the raw words their values are computed from (`_temp`,
   * `_ftemp` and `_rh`; None is an invalid value).
   */
  datatype Sensor = Sensor(phase: Phase, lastError: int, failCount: int,
                           temp: Option<bv16>, ftemp: bv16, rh: Option<RhReading>)

  /**
   * What the sensor drives on the data pin during one `check`: whether it acknowledges
   * a command (pulls the line low) and then releases the line, whether a measurement is
   * done (line low), and the 24 bits of the reply, most significant first.
   */
  datatype Response = Response(ack: bool, released: bool, done: bool, bits: seq<bool>)

  predicate WellFormed(r: Response)
  {
    |r.bits| == 24
  }

  /** The word and CRC `read_data` assembles from the reply. */
  function Received(bits: seq<bool>): (bv16, bv8)
    requires |bits| == 24
  {
    (Word(FromBits(bits[..8]), FromBits(bits[8..16])), FromBits(bits[16..24]))
  }

  /** The reply of a sensor that sends the word w and the CRC c. */
  function Reply(w: bv16, c: bv8): (r: seq<bool>)
    ensures |r| == 24
  {
    Bits(Hi(w)) + Bits(Lo(w)) + Bits(c)
  }

  /** `read_data` reads what the sensor sends, the word and the CRC. */
  lemma ReceivedReply(w: bv16, c: bv8)
    ensures Received(Reply(w, c)) == (w, c)
  {
    var r := Reply(w, c);
    assert r[..8] == Bits(Hi(w)) && r[8..16] == Bits(Lo(w)) && r[16..24] == Bits(c);
    BitsRoundTrip(Hi(w));
    BitsRoundTrip(Lo(w));
    BitsRoundTrip(c);
    WordOfBytes(w);
  }

  /** The result of one `check` step: the new state, the return value and the interval the timeout is reset to. */
  datatype Effect = Effect(next: Sensor, result: bool, wait: int)

  /** `reset()`: back to the temperature measurement, no failures, both readings invalid. */
  function Reset(s: Sensor): Sensor
  {
    s.(phase := MeasTemp, failCount := 0, temp := None, rh := None)
  }

  /** A failed phase: the same phase again in 500 ms, one more failure counted. */
  function Failed(s: Sensor, error: int): Effect
  {
    Effect(s.(lastError := error, failCount := s.failCount + 1), false, RETRY_INTERVAL)
  }

  /** Failed with the error a command leaves unacknowledged (1) or the line not released (2). */
  function SendError(r: Response): int
  {
    if !r.ack then 1 else 2
  }

  /**
   * A read phase: the measurement not done is error 4, a zero word error `zeroError`
   * (even with a matching CRC), a CRC mismatch error 3.
   */
  function ReadError(r: Response, cmd: bv8, zeroError: int): int
    requires WellFormed(r)
  {
    var (w, c) := Received(r.bits);
    if !r.done then 4 else if w == 0 then zeroError else if c != Crc8(cmd, w) then 3 else 0
  }

  /** The step `check` takes once its timeout has fired. */
  function Step(s: Sensor, r: Response): Effect
    requires WellFormed(r)
  {
    if s.failCount >= FAIL_RESET_THRESHOLD then Effect(Reset(s), false, RESET_INTERVAL)
    else
      var w := Received(r.bits).0;
      match s.phase
      case MeasTemp =>
        if r.ack && r.released then Effect(s.(phase := ReadTemp), false, MEAS_INTERVAL)
        else Failed(s, SendError(r))
      case ReadTemp =>
        var e := ReadError(r, MEAS_TEMP_CMD, 5);
        if e == 0 then Effect(s.(phase := MeasRH, temp := Some(w), ftemp := w), false, 0)
        else Failed(s, e)
      case MeasRH =>
        if r.ack && r.released then Effect(s.(phase := ReadRH), false, MEAS_INTERVAL)
        else Failed(s, SendError(r))
      case ReadRH =>
        var e := ReadError(r, MEAS_RH_CMD, 6);
        if e == 0 then Effect(s.(phase := MeasTemp, rh := Some(RhReading(w, s.ftemp)), lastError := 0), true, COOLDOWN_INTERVAL)
        else Failed(s, e)
  }

  /**
   * The invariant of the driver: the failure count never passes the threshold, and in
   * the humidity phases the temperature of the cycle is valid and is the one the
   * humidity will be corrected with.
   */
  predicate Good(s: Sensor)
  {
    && 0 <= s.failCount <= FAIL_RESET_THRESHOLD
    && (s.phase == MeasRH || s.phase == ReadRH ==> s.temp == Some(s.ftemp))
  }

  /** Every step keeps the invariant. */
  lemma StepKeepsGood(s: Sensor, r: Response)
    requires Good(s) && WellFormed(r)
    ensures Good(Step(s, r).next)
  {
    if s.failCount < FAIL_RESET_THRESHOLD {
      match s.phase
      case MeasTemp =>
      case ReadTemp => ReadKeepsGood(s, r);
      case MeasRH =>
      case ReadRH => ReadKeepsGood(s, r);
    }
  }

  /** The read phases keep the invariant: a temperature read stores the word it moves to the humidity with. */
  lemma ReadKeepsGood(s: Sensor, r: Response)
    requires Good(s) && WellFormed(r) && s.failCount < FAIL_RESET_THRESHOLD && (s.phase == ReadTemp || s.phase == ReadRH)
    ensures Good(Step(s, r).next)
  {
    var w := Received(r.bits).0;
    if s.phase == ReadTemp {
      var e := ReadError(r, MEAS_TEMP_CMD, 5);
      assert Step(s, r) == if e == 0 then Effect(s.(phase := MeasRH, temp := Some(w), ftemp := w), false, 0) else Failed(s, e);
    } else {
      var e := ReadError(r, MEAS_RH_CMD, 6);
      assert Step(s, r) == if e == 0 then Effect(s.(phase := MeasTemp, rh := Some(RhReading(w, s.ftemp)), lastError := 0), true, COOLDOWN_INTERVAL) else Failed(s, e);
    }
  }

  /**
   * `check` returns true only for a humidity reply that is done, not zero and matches
   * its CRC; it then stores it with the temperature of the same cycle, clears the
   * error, goes back to the temperature phase and cools down for nine seconds.
   */
  lemma TrueOnlyOnHumidity(s: Sensor, r: Response)
    requires Good(s) && WellFormed(r)
    ensures Step(s, r).result <==>
      s.failCount < FAIL_RESET_THRESHOLD && s.phase == ReadRH && ReadError(r, MEAS_RH_CMD, 6) == 0
    ensures Step(s, r).result ==>
      var n := Step(s, r).next;
      && n.phase == MeasTemp && n.lastError == 0 && Step(s, r).wait == COOLDOWN_INTERVAL
      && n.rh == Some(RhReading(Received(r.bits).0, s.ftemp)) && n.temp == s.temp == Some(s.ftemp)
  {
  }

  /** The phases cycle: a step stays, moves to the next phase, or resets to the temperature measurement. */
  function NextPhase(p: Phase): Phase
  {
    match p
    case MeasTemp => ReadTemp
    case ReadTemp => MeasRH
    case MeasRH => ReadRH
    case ReadRH => MeasTemp
  }

  /**
   * A failed phase is retried: the phase stays, one more failure is counted and the
   * next try is in 500 ms. Successes never clear the count, so the threshold counts
   * failures over all phases until a reset.
   */
  lemma FailuresAccumulate(s: Sensor, r: Response)
    requires Good(s) && WellFormed(r) && s.failCount < FAIL_RESET_THRESHOLD
    ensures var n := Step(s, r).next;
      n.phase == s.phase ==> n.failCount == s.failCount + 1 && Step(s, r).wait == RETRY_INTERVAL && !Step(s, r).result
    ensures var n := Step(s, r).next;
      n.phase != s.phase ==> n.phase == NextPhase(s.phase) && n.failCount == s.failCount
  {
  }

  /** At the threshold the step resets the sensor and waits a second, whatever the sensor does. */
  lemma ThresholdResets(s: Sensor, r: Response)
    requires WellFormed(r) && s.failCount >= FAIL_RESET_THRESHOLD
    ensures Step(s, r) == Effect(Reset(s), false, RESET_INTERVAL)
    ensures Step(s, r).next.phase == MeasTemp && Step(s, r).next.temp == None && Step(s, r).next.rh == None
  {
  }

  /** A zero word is refused even when the CRC sent with it matches. */
  lemma ZeroWordRefused(s: Sensor, r: Response)
    requires WellFormed(r) && s.failCount < FAIL_RESET_THRESHOLD && (s.phase == ReadTemp || s.phase == ReadRH)
    requires r.done && r.bits == Reply(0, Crc8(if s.phase == ReadTemp then MEAS_TEMP_CMD else MEAS_RH_CMD, 0))
    ensures Step(s, r) == Failed(s, if s.phase == ReadTemp then 5 else 6)
  {
    ReceivedReply(0, Crc8(if s.phase == ReadTemp then MEAS_TEMP_CMD else MEAS_RH_CMD, 0));
  }

  /**
   * A reply whose data word arrives with one bit flipped, the CRC intact, fails with
   * error 3 (a flip that leaves a zero word fails earlier, with error 5 or 6).
   */
  lemma CorruptedWordRefused(s: Sensor, r: Response, w: bv16, received: bv16, j: int)
    requires WellFormed(r) && s.failCount < FAIL_RESET_THRESHOLD && (s.phase == ReadTemp || s.phase == ReadRH)
    requires 0 <= j < 16 && Bits16(received) == Bits16(w)[j := !Bits16(w)[j]] && received != 0
    requires var cmd := if s.phase == ReadTemp then MEAS_TEMP_CMD else MEAS_RH_CMD;
      r.done && r.bits == Reply(received, Crc8(cmd, w))
    ensures Step(s, r) == Failed(s, 3)
  {
    var cmd := if s.phase == ReadTemp then MEAS_TEMP_CMD else MEAS_RH_CMD;
    ReceivedReply(received, Crc8(cmd, w));
    DataBitFlipDetected(cmd, w, received, j);
  }

  /** A sensor that answers both commands and sends each word with its CRC. */
  predicate Answers(r: Response)
  {
    r.ack && r.released
  }

  predicate Sends(r: Response, cmd: bv8, w: bv16)
  {
    r.done && w != 0 && r.bits == Reply(w, Crc8(cmd, w))
  }

  /**
   * A full cycle: from the temperature phase, a sensor that answers and sends the
   * temperature word t and the humidity word h gives `check` results false, false,
   * false, true, after waits of 500 ms, none, 500 ms and 9 s, and leaves both readings
   * valid, with no failure added.
   */
  lemma FullCycle(s: Sensor, r1: Response, r2: Response, r3: Response, r4: Response, t: bv16, h: bv16)
    requires Good(s) && s.phase == MeasTemp && s.failCount < FAIL_RESET_THRESHOLD
    requires WellFormed(r1) && WellFormed(r2) && WellFormed(r3) && WellFormed(r4)
    requires Answers(r1) && Sends(r2, MEAS_TEMP_CMD, t) && Answers(r3) && Sends(r4, MEAS_RH_CMD, h)
    ensures var e1 := Step(s, r1); var e2 := Step(e1.next, r2); var e3 := Step(e2.next, r3); var e4 := Step(e3.next, r4);
      && !e1.result && !e2.result && !e3.result && e4.result
      && e1.wait == MEAS_INTERVAL && e2.wait == 0 && e3.wait == MEAS_INTERVAL && e4.wait == COOLDOWN_INTERVAL
      && e4.next == s.(temp := Some(t), ftemp := t, rh := Some(RhReading(h, t)), lastError := 0)
  {
    ReceivedReply(t, Crc8(MEAS_TEMP_CMD, t));
    ReceivedReply(h, Crc8(MEAS_RH_CMD, h));
  }

  // ----------- The driver -----------

  class Sht1x {
    var phase: Phase
    var lastError: int
    var failCount: int
    var temp: Option<bv16>
    var ftemp: bv16
    var rh: Option<RhReading>
    const timeout: T.Timeout

    function Snap(): Sensor
      reads this
    {
      Sensor(phase, lastError, failCount, temp, ftemp, rh)
    }

    predicate Valid()
      reads this, timeout
    {
      timeout.Valid() && Good(Snap())
    }

    /** `SHT1X(clk, data)`: a timeout that fires at once, then `reset()`; the other fields start at zero. */
    constructor(now: int)
      requires IsUInt32(now)
      ensures Valid() && fresh(timeout)
      ensures Snap() == Sensor(MeasTemp, 0, 0, None, 0, None) && timeout.time == T.Deadline(0, now)
    {
      timeout := new T.Timeout.Start(0, now);
      phase, lastError, failCount, temp, ftemp, rh := MeasTemp, 0, 0, None, 0, None;
      new;
      ResetSensor();
    }

    /** `reset()`: the sensor's interface reset (ten clocks with data high) and the state of `Reset`. */
    method ResetSensor()
      modifies this
      ensures Snap() == Reset(old(Snap()))
    {
      phase := MeasTemp;
      failCount := 0;
      temp := None;
      rh := None;
    }

    /**
     * `send_cmd(cmd)`: clocks the command out on the data line, most significant bit
     * first, changing the line only when the next bit differs from its level; then the
     * sensor must pull the line low (ack) and release it. `line` is the level at each clock.
     */
    method SendCmd(cmd: bv8, ack: bool, released: bool) returns (ok: bool, line: seq<bool>)
      modifies this
      ensures line == Bits(cmd) && FromBits(line) == cmd
      ensures ok == (ack && released)
      ensures lastError == (if !ack then 1 else if !released then 2 else old(lastError))
      ensures phase == old(phase) && failCount == old(failCount) && temp == old(temp) && ftemp == old(ftemp) && rh == old(rh)
    {
      var c := cmd;
      var datastate := true;
      line := [];
      for k := 0 to 8
        modifies {}
        invariant line == Bits(cmd)[..k]
        invariant forall j :: 0 <= j < 8 - k ==> Bits(c)[j] == Bits(cmd)[k + j]
      {
        ClockOut(cmd, k, line, c, c << 1);
        var daBit := (c & 0x80) == 0x80;
        if datastate != daBit {
          datastate := daBit;
        }
        line := line + [datastate];
        c := c << 1;
      }
      assert Bits(cmd)[..8] == Bits(cmd);
      BitsRoundTrip(cmd);
      if !ack {
        lastError := 1;
        return false, line;
      }
      if !released {
        lastError := 2;
        return false, line;
      }
      return true, line;
    }

    /** `verify_crc8(cmd, value, crc)`: whether crc is the CRC of the command and the word; error 3 if not. */
    method VerifyCrc8(cmd: bv8, value: bv16, crc: bv8) returns (ok: bool)
      modifies this
      ensures ok == (crc == Crc8(cmd, value))
      ensures lastError == (if ok then old(lastError) else 3)
      ensures phase == old(phase) && failCount == old(failCount) && temp == old(temp) && ftemp == old(ftemp) && rh == old(rh)
    {
      var reg := CrcMessage(cmd, value);
      if crc != reg {
        lastError := 3;
        return false;
      }
      return true;
    }

    /** `done()`: the measurement is done when the sensor pulls the line low; error 4 if not. */
    method Done(ready: bool) returns (ok: bool)
      modifies this
      ensures ok == ready && lastError == (if ready then old(lastError) else 4)
      ensures phase == old(phase) && failCount == old(failCount) && temp == old(temp) && ftemp == old(ftemp) && rh == old(rh)
    {
      if !ready {
        lastError := 4;
        return false;
      }
      return true;
    }

    /** The read phases of `check`: done, then the word, then the zero test and the CRC. */
    method ReadWord(cmd: bv8, r: Response, zeroError: int) returns (w: bv16, ok: bool)
      requires WellFormed(r) && zeroError != 0
      modifies this
      ensures w == Received(r.bits).0 && ok == (ReadError(r, cmd, zeroError) == 0)
      ensures var e := ReadError(r, cmd, zeroError); lastError == (if e == 0 then old(lastError) else e)
      ensures phase == old(phase) && failCount == old(failCount) && temp == old(temp) && ftemp == old(ftemp) && rh == old(rh)
    {
      w := Received(r.bits).0;
      ok := Done(r.done);
      if ok {
        var crc;
        w, crc := ReadData(r.bits);
        if w == 0 {
          lastError := zeroError;
          ok := false;
        } else {
          ok := VerifyCrc8(cmd, w, crc);
        }
      }
    }

    /** A command phase of `check`: on success the next phase, after 500 ms; otherwise one more failure. */
    method CommandPhase(cmd: bv8, next: Phase, r: Response) returns (result: bool, wait: int)
      requires WellFormed(r) && failCount < FAIL_RESET_THRESHOLD
      requires (phase == MeasTemp && cmd == MEAS_TEMP_CMD && next == ReadTemp) || (phase == MeasRH && cmd == MEAS_RH_CMD && next == ReadRH)
      modifies this
      ensures Effect(Snap(), result, wait) == Step(old(Snap()), r)
    {
      var ok, line := SendCmd(cmd, r.ack, r.released);
      if ok {
        phase := next;
        return false, MEAS_INTERVAL;
      }
      failCount := failCount + 1;
      return false, RETRY_INTERVAL;
    }

    /** The temperature read phase of `check`: a good word is stored and the humidity is measured at once. */
    method ReadTempPhase(r: Response) returns (result: bool, wait: int)
      requires WellFormed(r) && failCount < FAIL_RESET_THRESHOLD && phase == ReadTemp
      modifies this
      ensures Effect(Snap(), result, wait) == Step(old(Snap()), r)
    {
      var w, ok := ReadWord(MEAS_TEMP_CMD, r, 5);
      if ok {
        ftemp := w;
        temp := Some(w);
        phase := MeasRH;
        return false, 0;
      }
      failCount := failCount + 1;
      return false, RETRY_INTERVAL;
    }

    /** The humidity read phase of `check`: a good word completes the cycle, which cools down for nine seconds. */
    method ReadRHPhase(r: Response) returns (result: bool, wait: int)
      requires WellFormed(r) && failCount < FAIL_RESET_THRESHOLD && phase == ReadRH
      modifies this
      ensures Effect(Snap(), result, wait) == Step(old(Snap()), r)
    {
      var w, ok := ReadWord(MEAS_RH_CMD, r, 6);
      if ok {
        rh := Some(RhReading(w, ftemp));
        phase := MeasTemp;
        lastError := 0;
        return true, COOLDOWN_INTERVAL;
      }
      failCount := failCount + 1;
      return false, RETRY_INTERVAL;
    }

    /**
     * `check()`: nothing before the timeout fires; then the step of `Step`, with the
     * timeout reset to its wait.
     */
    method Check(now: int, r: Response) returns (result: bool)
      requires Valid() && IsUInt32(now) && WellFormed(r)
      modifies this, timeout
      ensures Valid()
      ensures !T.Fires(old(timeout.time), now) ==> !result && Snap() == old(Snap()) && timeout.time == old(timeout.time)
      ensures T.Fires(old(timeout.time), now) ==>
        var e := Step(old(Snap()), r);
        Snap() == e.next && result == e.result && timeout.time == T.Deadline(e.wait, now)
    {
      var fired := timeout.Check(now);
      if !fired {
        return false;
      }
      StepKeepsGood(Snap(), r);
      if failCount >= FAIL_RESET_THRESHOLD {
        ResetSensor();
        timeout.Reset(RESET_INTERVAL, now);
        return false;
      }
      var wait: int;
      match phase {
        case MeasTemp =>
          result, wait := CommandPhase(MEAS_TEMP_CMD, ReadTemp, r);
        case ReadTemp =>
          result, wait := ReadTempPhase(r);
        case MeasRH =>
          result, wait := CommandPhase(MEAS_RH_CMD, ReadRH, r);
        case ReadRH =>
          result, wait := ReadRHPhase(r);
      }
      timeout.Reset(wait, now);
    }
  }

  /** The loops of `verify_crc8`: the command and the word's two bytes through the register, from zero. */
  method CrcMessage(cmd: bv8, value: bv16) returns (reg: bv8)
    ensures reg == Crc8(cmd, value)
  {
    reg := 0;
    var xmit := [cmd, (value >> 8) as bv8, (value & 0xff) as bv8];
    assert xmit == [cmd, Hi(value), Lo(value)];
    for m := 0 to 3
      invariant reg == Crc(0, Message(cmd, value)[..8 * m])
    {
      MessageStep(cmd, value, m);
      reg := CrcByte(reg, xmit[m]);
    }
    assert Message(cmd, value)[..24] == Message(cmd, value);
  }

  /** One pass of the outer loop of `verify_crc8`: byte m of the message goes through the register. */
  lemma MessageStep(cmd: bv8, value: bv16, m: int)
    requires 0 <= m < 3
    ensures Crc(Crc(0, Message(cmd, value)[..8 * m]), Bits([cmd, Hi(value), Lo(value)][m])) == Crc(0, Message(cmd, value)[..8 * m + 8])
  {
    MessageBytes(cmd, value, m);
    CrcAppend(0, Message(cmd, value)[..8 * m], Bits([cmd, Hi(value), Lo(value)][m]));
  }

  /** One clock of `send_cmd`: the top bit of c is the next bit of the command; c shifts left into d. */
  lemma ClockOut(cmd: bv8, k: int, line: seq<bool>, c: bv8, d: bv8)
    requires 0 <= k < 8 && line == Bits(cmd)[..k] && d == c << 1
    requires forall j :: 0 <= j < 8 - k ==> Bits(c)[j] == Bits(cmd)[k + j]
    ensures line + [(c & 0x80) == 0x80] == Bits(cmd)[..k + 1]
    ensures forall j :: 0 <= j < 8 - (k + 1) ==> Bits(d)[j] == Bits(cmd)[k + 1 + j]
  {
    ShiftStep(cmd, k, c, d);
  }

  /** `read_data(&crc)`: three bytes from the line; the first two are the word, the third the CRC. */
  method ReadData(bits: seq<bool>) returns (value: bv16, crc: bv8)
    requires |bits| == 24
    ensures (value, crc) == Received(bits)
  {
    var x := new bv8[3];
    for m := 0 to 3
      invariant forall i :: 0 <= i < m ==> x[i] == FromBits(bits[8 * i..8 * i + 8])
    {
      x[m] := ReadByte(bits[8 * m..8 * m + 8]);
    }
    crc := x[2];
    value := ((x[0] as bv16) << 8) | (x[1] as bv16);
  }
}
