// `TWIMaster`: a polling I2C master. Every operation writes TWCR (and TWDR)
// and then waits, with `twiWait`, until the peripheral reports the status of
// the operation in TWSR. The wait is one call of `Twi.Complete`: the status
// comes from the peripheral's bus oracle.
module TwiMaster {
  import opened Avr

  // The TWCR values the master writes.
  const START_CMD: bv8 := TWINT | TWSTA | TWEN
  const NEXT_CMD: bv8 := TWINT | TWEN
  const STOP_CMD: bv8 := TWINT | TWEN | TWSTO

  /** `twiWait`'s result for a status: 0 for the expected one, otherwise an error code that is never 0. */
  function WaitResult(status: bv8, expected: bv8): (r: bv8)
    ensures (r == 0) == (status == expected)
    ensures r != 0 ==> (status != 0 ==> r == status) && (status == 0 ==> r == 0xff)
  {
    if status != expected then (if status == 0 then 0xff else status) else 0
  }

  /** The status `start` waits for: a repeated START while the master holds the bus. */
  function StartExpect(active: bool): bv8
  {
    if active then TW_REP_START else TW_START
  }

  /**
   * The number of waits, from the k-th completion of the bus on, that report
   * the expected status before the first one that does not.
   */
  function FirstFail(bus: nat -> Event, t: nat, exp: seq<bv8>): (k: nat)
    ensures k <= |exp|
    decreases |exp|
  {
    if exp == [] || Status(bus(t).status) != exp[0] then 0
    else 1 + FirstFail(bus, t + 1, exp[1..])
  }

  /** The result of a sequence of waits that stops at the first error, and how many waits it made. */
  datatype Run = Run(status: bv8, waits: nat)

  function Perform(bus: nat -> Event, t: nat, exp: seq<bv8>): (r: Run)
    ensures r.waits <= |exp|
  {
    var k := FirstFail(bus, t, exp);
    if k < |exp| then Run(WaitResult(Status(bus(t + k).status), exp[k]), k + 1) else Run(0, |exp|)
  }

  lemma {:induction false} FirstFailSpec(bus: nat -> Event, t: nat, exp: seq<bv8>)
    ensures var k := FirstFail(bus, t, exp);
      && (forall j :: 0 <= j < k ==> Status(bus(t + j).status) == exp[j])
      && (k < |exp| ==> Status(bus(t + k).status) != exp[k])
    decreases |exp|
  {
    if exp != [] && Status(bus(t).status) == exp[0] {
      FirstFailSpec(bus, t + 1, exp[1..]);
      var k := FirstFail(bus, t, exp);
      forall j | 0 <= j < k
        ensures Status(bus(t + j).status) == exp[j]
      {
        if j > 0 {
          assert exp[j] == exp[1..][j - 1];
          assert t + j == (t + 1) + (j - 1);
        }
      }
    }
  }

  /** A run that meets the expected status at its first k waits and misses it at the next. */
  lemma PerformFailsAt(bus: nat -> Event, t: nat, exp: seq<bv8>, k: nat)
    requires k < |exp| && Status(bus(t + k).status) != exp[k]
    requires forall j :: 0 <= j < k ==> Status(bus(t + j).status) == exp[j]
    ensures Perform(bus, t, exp) == Run(WaitResult(Status(bus(t + k).status), exp[k]), k + 1)
  {
    var f := FirstFail(bus, t, exp);
    FirstFailSpec(bus, t, exp);
    if f < k {
      assert false;
    }
  }

  /** The wait after the first i matching ones either matches too or is the first mismatch. */
  lemma FirstFailStep(bus: nat -> Event, t: nat, exp: seq<bv8>, i: nat)
    requires i < |exp| && i <= FirstFail(bus, t, exp)
    ensures Status(bus(t + i).status) == exp[i] ==> i + 1 <= FirstFail(bus, t, exp)
    ensures Status(bus(t + i).status) != exp[i] ==>
      Perform(bus, t, exp) == Run(WaitResult(Status(bus(t + i).status), exp[i]), i + 1)
  {
    FirstFailSpec(bus, t, exp);
  }

  lemma TakeNext<T>(s: seq<T>, i: nat)
    requires i < |s|
    ensures s[..i + 1] == s[..i] + [s[i]]
  {
  }

  lemma TakeAll<T>(s: seq<T>)
    ensures s[..|s|] == s
  {
  }

  /** A run that meets every expected status. */
  lemma PerformSucceeds(bus: nat -> Event, t: nat, exp: seq<bv8>)
    requires forall j :: 0 <= j < |exp| ==> Status(bus(t + j).status) == exp[j]
    ensures Perform(bus, t, exp) == Run(0, |exp|)
  {
    FirstFailSpec(bus, t, exp);
  }

  /** The statuses a write frame waits for: the address acknowledgement, then one per data byte. */
  function WriteExpect(n: nat, dataAck: bv8): (r: seq<bv8>)
    ensures |r| == n + 1 && r[0] == TW_MT_SLA_ACK
    ensures forall j :: 1 <= j < |r| ==> r[j] == dataAck
  {
    [TW_MT_SLA_ACK] + seq(n, j => dataAck)
  }

  /** The operations that send the bytes w, one after the other. */
  function Sends(w: seq<bv8>): (r: seq<Command>)
    ensures |r| == |w| && forall j :: 0 <= j < |w| ==> r[j] == Command(NEXT_CMD, w[j])
  {
    seq(|w|, j requires 0 <= j < |w| => Command(NEXT_CMD, w[j]))
  }

  /** The acknowledgement the master gives the j-th of n received bytes: ACK for all but the last. */
  function ReadAck(j: nat, n: nat): (r: bv8)
    ensures r == TWEA <==> j + 1 < n
    ensures r == 0 <==> j + 1 >= n
  {
    if j + 1 < n then TWEA else 0
  }

  /** The statuses the data part of a read waits for: DATA_ACK for every byte but the last, DATA_NACK for the last. */
  function DataExpect(n: nat): (r: seq<bv8>)
    ensures |r| == n
  {
    seq(n, j requires 0 <= j < n => if ReadAck(j, n) == TWEA then TW_MR_DATA_ACK else TW_MR_DATA_NACK)
  }

  /**
   * The reads of the data part, the first completing t-th: each
   * acknowledges unless it is the last, and is started while TWDR still holds
   * twdr0 (the first) or the byte of the previous completion (the others).
   */
  function DataReads(bus: nat -> Event, t: nat, twdr0: bv8, n: nat): (r: seq<Command>)
    ensures |r| == n
  {
    seq(n, j requires 0 <= j < n => Command(NEXT_CMD | ReadAck(j, n), if j == 0 then twdr0 else bus(t + j - 1).data))
  }

  /** The first j + 1 reads of the data part: the first j, then the j-th. */
  lemma DataReadsNext(bus: nat -> Event, t: nat, twdr0: bv8, n: nat, j: nat)
    requires j < n
    ensures DataReads(bus, t, twdr0, n)[..j + 1]
      == DataReads(bus, t, twdr0, n)[..j] + [Command(NEXT_CMD | ReadAck(j, n), if j == 0 then twdr0 else bus(t + j - 1).data)]
    ensures DataExpect(n)[j] == if j + 1 < n then TW_MR_DATA_ACK else TW_MR_DATA_NACK
  {
    TakeNext(DataReads(bus, t, twdr0, n), j);
  }

  /** The number of bytes the data part has stored: one per successful wait. */
  function Got(run: Run, n: nat): (m: nat)
    requires run.waits <= n
    ensures m <= n && (run.status == 0 ==> m == n)
    ensures run.status != 0 && run.waits > 0 ==> m + 1 == run.waits
  {
    if run.status == 0 then n else if run.waits > 0 then run.waits - 1 else 0
  }

  /** The buffer b after its first k bytes are replaced by the data of k completions from the t-th on. */
  function Fill(b: seq<bv8>, bus: nat -> Event, t: nat, k: nat): (r: seq<bv8>)
    requires k <= |b|
    ensures |r| == |b|
  {
    seq(|b|, j requires 0 <= j < |b| => if j < k then bus(t + j).data else b[j])
  }

  lemma FillNext(b: seq<bv8>, bus: nat -> Event, t: nat, k: nat)
    requires k < |b|
    ensures Fill(b, bus, t, k)[k := bus(t + k).data] == Fill(b, bus, t, k + 1)
  {
  }

  /** `twiWait(expected)`: the pending operation completes and its status is checked. */
  method TwiWait(hw: Twi, expected: bv8) returns (r: bv8)
    modifies hw
    ensures r == WaitResult(Status(hw.bus(old(hw.clock)).status), expected)
    ensures hw.log == old(hw.log) + [Command(old(hw.twcr), old(hw.twdr))] && hw.clock == old(hw.clock) + 1
    ensures hw.twsr & 0x07 == old(hw.twsr) & 0x07 && hw.twdr == hw.bus(old(hw.clock)).data
    ensures hw.twcr == old(hw.twcr) | TWINT && hw.twar == old(hw.twar) && hw.twbr == old(hw.twbr)
  {
    hw.Complete();
    var status := Status(hw.twsr);
    if status != expected {
      return if status == 0 then 0xff else status;
    }
    return 0;
  }

  /** `TWIMaster`: the peripheral, the register values it found, and whether it holds the bus. */
  class Master {
    const hw: Twi
    var savedTwcr: bv8
    var savedTwbr: bv8
    var savedTwsr: bv8
    var active: bool

    /** The constructor: save TWCR/TWBR/TWSR, switch the peripheral off and program the speed. */
    constructor(hw: Twi, speed: bv16)
      modifies hw
      ensures this.hw == hw && !active
      ensures savedTwcr == old(hw.twcr) && savedTwbr == old(hw.twbr) && savedTwsr == old(hw.twsr)
      ensures hw.twcr == 0 && hw.twbr == (speed & 0xff) as bv8 && hw.twsr == (speed >> 8) as bv8
      ensures hw.twdr == old(hw.twdr) && hw.twar == old(hw.twar)
      ensures hw.clock == old(hw.clock) && hw.log == old(hw.log)
    {
      this.hw := hw;
      var twcr, twbr, twsr := hw.twcr, hw.twbr, hw.twsr;
      savedTwcr, savedTwbr, savedTwsr := twcr, twbr, twsr;
      active := false;
      new;
      hw.twcr := 0;
      hw.twbr := (speed & 0xff) as bv8;
      hw.twsr := (speed >> 8) as bv8;
    }

    /** The destructor: release the bus, restore the speed and the saved TWEN/TWIE/TWEA bits. */
    method Close()
      modifies this, hw
      ensures !active && hw.twbr == savedTwbr && hw.twsr == savedTwsr
      ensures hw.twcr == TWINT | (savedTwcr & (TWEN | TWIE | TWEA))
      ensures hw.log == old(hw.log) + (if old(active) then [Command(STOP_CMD, old(hw.twdr))] else [])
      ensures savedTwcr == old(savedTwcr) && savedTwbr == old(savedTwbr) && savedTwsr == old(savedTwsr)
      ensures hw.twdr == old(hw.twdr) && hw.twar == old(hw.twar) && hw.clock == old(hw.clock)
    {
      Stop();
      hw.twbr := savedTwbr;
      hw.twsr := savedTwsr;
      hw.twcr := TWINT | (savedTwcr & (TWEN | TWIE | TWEA));
    }

    /** `start()`: a START, or a repeated START while active; the master holds the bus only on success. */
    method Start() returns (status: bv8)
      modifies this, hw
      ensures status == WaitResult(Status(hw.bus(old(hw.clock)).status), StartExpect(old(active)))
      ensures active == (old(active) || status == 0)
      ensures hw.log == old(hw.log) + [Command(START_CMD, old(hw.twdr))] && hw.clock == old(hw.clock) + 1
      ensures hw.twcr == START_CMD && hw.twdr == hw.bus(old(hw.clock)).data
      ensures hw.twsr & 0x07 == old(hw.twsr) & 0x07 && hw.twar == old(hw.twar) && hw.twbr == old(hw.twbr)
      ensures savedTwcr == old(savedTwcr) && savedTwbr == old(savedTwbr) && savedTwsr == old(savedTwsr)
    {
      hw.twcr := START_CMD;
      status := TwiWait(hw, StartExpect(active));
      if status != 0 {
        return;
      }
      active := true;
      return 0;
    }

    /** `stop()`: nothing unless active; otherwise a STOP, waited for until TWSTO clears. */
    method Stop()
      modifies this, hw
      ensures !active
      ensures hw.log == old(hw.log) + (if old(active) then [Command(STOP_CMD, old(hw.twdr))] else [])
      ensures hw.twcr == (if old(active) then TWINT | TWEN else old(hw.twcr))
      ensures hw.twdr == old(hw.twdr) && hw.twsr == old(hw.twsr) && hw.clock == old(hw.clock)
      ensures hw.twar == old(hw.twar) && hw.twbr == old(hw.twbr)
      ensures savedTwcr == old(savedTwcr) && savedTwbr == old(savedTwbr) && savedTwsr == old(savedTwsr)
    {
      if !active {
        return;
      }
      hw.twcr := STOP_CMD;
      hw.StopSent();
      active := false;
    }

    /**
     * `transmit(addr, buf, n)` as written: START, then the address frame and
     * the n bytes, each acknowledgement compared with TW_MT_SLA_ACK.
     */
    method Transmit(addr: bv8, buf: array<bv8>, n: nat) returns (status: bv8)
      requires n < 256 && n <= buf.Length
      modifies this, hw
      ensures var s := WaitResult(Status(hw.bus(old(hw.clock)).status), StartExpect(old(active)));
        s != 0 ==> (status == s && active == old(active) && hw.clock == old(hw.clock) + 1
          && hw.log == old(hw.log) + [Command(START_CMD, old(hw.twdr))])
      ensures var s := WaitResult(Status(hw.bus(old(hw.clock)).status), StartExpect(old(active)));
        var run := Perform(hw.bus, old(hw.clock) + 1, WriteExpect(n, TW_MT_SLA_ACK));
        s == 0 ==> (status == run.status && active && hw.clock == old(hw.clock) + 1 + run.waits
          && hw.log == old(hw.log) + [Command(START_CMD, old(hw.twdr))] + Sends([AddressByte(addr, TW_WRITE)] + buf[..n])[..run.waits])
      ensures hw.twar == old(hw.twar) && hw.twbr == old(hw.twbr)
      ensures savedTwcr == old(savedTwcr) && savedTwbr == old(savedTwbr) && savedTwsr == old(savedTwsr)
    {
      status := Start();
      if status != 0 {
        return;
      }
      status := WriteFrame(hw, addr, buf, n, TW_MT_SLA_ACK);
    }

    /** `transmit` with each data byte's acknowledgement compared with TW_MT_DATA_ACK. */
    method TransmitChecked(addr: bv8, buf: array<bv8>, n: nat) returns (status: bv8)
      requires n < 256 && n <= buf.Length
      modifies this, hw
      ensures var s := WaitResult(Status(hw.bus(old(hw.clock)).status), StartExpect(old(active)));
        s != 0 ==> (status == s && active == old(active) && hw.clock == old(hw.clock) + 1
          && hw.log == old(hw.log) + [Command(START_CMD, old(hw.twdr))])
      ensures var s := WaitResult(Status(hw.bus(old(hw.clock)).status), StartExpect(old(active)));
        var run := Perform(hw.bus, old(hw.clock) + 1, WriteExpect(n, TW_MT_DATA_ACK));
        s == 0 ==> (status == run.status && active && hw.clock == old(hw.clock) + 1 + run.waits
          && hw.log == old(hw.log) + [Command(START_CMD, old(hw.twdr))] + Sends([AddressByte(addr, TW_WRITE)] + buf[..n])[..run.waits])
      ensures hw.twar == old(hw.twar) && hw.twbr == old(hw.twbr)
      ensures savedTwcr == old(savedTwcr) && savedTwbr == old(savedTwbr) && savedTwsr == old(savedTwsr)
    {
      status := Start();
      if status != 0 {
        return;
      }
      status := WriteFrame(hw, addr, buf, n, TW_MT_DATA_ACK);
    }

    /**
     * `receive(addr, buf, n)`: START, the address frame with the read bit, then
     * n bytes into buf[0..n), each acknowledged except the last. It stops at
     * the first status that is not the expected one and returns its error code.
     */
    method Receive(addr: bv8, buf: array<bv8>, n: nat) returns (status: bv8)
      requires n < 256 && n <= buf.Length
      modifies this, hw, buf
      ensures var t := old(hw.clock);
        var s := WaitResult(Status(hw.bus(t).status), StartExpect(old(active)));
        s != 0 ==> (status == s && active == old(active) && hw.clock == t + 1
          && hw.log == old(hw.log) + [Command(START_CMD, old(hw.twdr))] && buf[..] == old(buf[..]))
      ensures var t := old(hw.clock);
        var s := WaitResult(Status(hw.bus(t).status), StartExpect(old(active)));
        var a := WaitResult(Status(hw.bus(t + 1).status), TW_MR_SLA_ACK);
        s == 0 && a != 0 ==> (status == a && active && hw.clock == t + 2
          && hw.log == old(hw.log) + [Command(START_CMD, old(hw.twdr)), Command(NEXT_CMD, AddressByte(addr, TW_READ))]
          && buf[..] == old(buf[..]))
      ensures var t := old(hw.clock);
        var s := WaitResult(Status(hw.bus(t).status), StartExpect(old(active)));
        var a := WaitResult(Status(hw.bus(t + 1).status), TW_MR_SLA_ACK);
        var run := Perform(hw.bus, t + 2, DataExpect(n));
        s == 0 && a == 0 ==> (status == run.status && active && hw.clock == t + 2 + run.waits
          && hw.log == old(hw.log) + [Command(START_CMD, old(hw.twdr)), Command(NEXT_CMD, AddressByte(addr, TW_READ))]
                       + DataReads(hw.bus, t + 2, hw.bus(t + 1).data, n)[..run.waits]
          && buf[..] == Fill(old(buf[..]), hw.bus, t + 2, Got(run, n)))
      ensures hw.twar == old(hw.twar) && hw.twbr == old(hw.twbr)
      ensures savedTwcr == old(savedTwcr) && savedTwbr == old(savedTwbr) && savedTwsr == old(savedTwsr)
    {
      status := Start();
      if status != 0 {
        return;
      }
      status := ReadFrame(hw, addr, buf, n);
    }

  }

  /**
   * The loop of `transmit`: the address byte with the write bit, then the n
   * bytes, each acknowledgement compared with TW_MT_SLA_ACK for the address
   * and with dataAck for the data, stopping at the first mismatch.
   */
  method WriteFrame(hw: Twi, addr: bv8, buf: array<bv8>, n: nat, dataAck: bv8) returns (status: bv8)
    requires n < 256 && n <= buf.Length
    modifies hw
    ensures var run := Perform(hw.bus, old(hw.clock), WriteExpect(n, dataAck));
      && status == run.status && hw.clock == old(hw.clock) + run.waits
      && hw.log == old(hw.log) + Sends([AddressByte(addr, TW_WRITE)] + buf[..n])[..run.waits]
    ensures hw.twar == old(hw.twar) && hw.twbr == old(hw.twbr)
  {
    ghost var t := hw.clock;
    ghost var exp := WriteExpect(n, dataAck);
    ghost var w := [AddressByte(addr, TW_WRITE)] + buf[..n];
    ghost var cmds := Sends(w);
    ghost var log0 := hw.log;
    // write slave address + W, then data bytes
    var b := AddressByte(addr, TW_WRITE);
    var expected := TW_MT_SLA_ACK;
    var m := n;
    var i: nat := 0;
    while true
      invariant i + m == n && b == w[i] && expected == exp[i]
      invariant hw.clock == t + i && hw.log == log0 + cmds[..i]
      invariant i <= FirstFail(hw.bus, t, exp)
      invariant hw.twar == old(hw.twar) && hw.twbr == old(hw.twbr)
      decreases m
    {
      hw.twdr := b;
      hw.twcr := NEXT_CMD;
      status := TwiWait(hw, expected);
      TakeNext(cmds, i);
      FirstFailStep(hw.bus, t, exp, i);
      if status != 0 {
        return;
      }
      if m == 0 {
        break;
      }
      m := m - 1;
      assert w[i + 1] == buf[i];
      b := buf[i];
      i := i + 1;
      expected := dataAck;
    }
    TakeAll(cmds);
    return 0;
  }

  /**
   * One pass of the read loop, the i-th of n in a data part whose first read
   * completes t-th: the byte is read with the acknowledgement ack and waited for.
   */
  method ReadByte(hw: Twi, ack: bv8, ghost t: nat, ghost twdr0: bv8, ghost n: nat, ghost i: nat) returns (status: bv8)
    requires i < n && ack == ReadAck(i, n) && hw.clock == t + i
    requires hw.twdr == if i == 0 then twdr0 else hw.bus(t + i - 1).data
    requires i <= FirstFail(hw.bus, t, DataExpect(n))
    modifies hw
    ensures hw.log == old(hw.log) + [DataReads(hw.bus, t, twdr0, n)[i]]
    ensures hw.clock == t + i + 1 && hw.twdr == hw.bus(t + i).data
    ensures status == 0 ==> i + 1 <= FirstFail(hw.bus, t, DataExpect(n))
    ensures status != 0 ==> Perform(hw.bus, t, DataExpect(n)) == Run(status, i + 1)
    ensures hw.twar == old(hw.twar) && hw.twbr == old(hw.twbr)
  {
    DataReadsNext(hw.bus, t, twdr0, n, i);
    hw.twcr := NEXT_CMD | ack;
    status := TwiWait(hw, if ack != 0 then TW_MR_DATA_ACK else TW_MR_DATA_NACK);
    FirstFailStep(hw.bus, t, DataExpect(n), i);
  }

  /**
   * The frames of `receive` after the START: the address byte with the read bit,
   * then, when the slave acknowledges it, the data bytes.
   */
  method ReadFrame(hw: Twi, addr: bv8, buf: array<bv8>, n: nat) returns (status: bv8)
    requires n < 256 && n <= buf.Length
    modifies hw, buf
    ensures var t := old(hw.clock);
      var a := WaitResult(Status(hw.bus(t).status), TW_MR_SLA_ACK);
      a != 0 ==> (status == a && hw.clock == t + 1
        && hw.log == old(hw.log) + [Command(NEXT_CMD, AddressByte(addr, TW_READ))] && buf[..] == old(buf[..]))
    ensures var t := old(hw.clock);
      var a := WaitResult(Status(hw.bus(t).status), TW_MR_SLA_ACK);
      var run := Perform(hw.bus, t + 1, DataExpect(n));
      a == 0 ==> (status == run.status && hw.clock == t + 1 + run.waits
        && hw.log == old(hw.log) + [Command(NEXT_CMD, AddressByte(addr, TW_READ))]
                     + DataReads(hw.bus, t + 1, hw.bus(t).data, n)[..run.waits]
        && buf[..] == Fill(old(buf[..]), hw.bus, t + 1, Got(run, n)))
    ensures hw.twar == old(hw.twar) && hw.twbr == old(hw.twbr)
  {
    // write slave address + R
    hw.twdr := AddressByte(addr, TW_READ);
    hw.twcr := NEXT_CMD;
    status := TwiWait(hw, TW_MR_SLA_ACK);
    if status != 0 {
      return;
    }
    status := ReadData(hw, buf, n);
  }

  /** One pass of the read loop: the byte is read and, when its status is the expected one, stored at buf[i]. */
  method ReadInto(hw: Twi, buf: array<bv8>, ack: bv8, ghost t: nat, ghost twdr0: bv8, ghost b0: seq<bv8>, ghost n: nat, i: nat)
    returns (status: bv8)
    requires i < n <= buf.Length == |b0| && ack == ReadAck(i, n) && hw.clock == t + i
    requires hw.twdr == if i == 0 then twdr0 else hw.bus(t + i - 1).data
    requires i <= FirstFail(hw.bus, t, DataExpect(n)) && buf[..] == Fill(b0, hw.bus, t, i)
    modifies hw, buf
    ensures hw.log == old(hw.log) + [DataReads(hw.bus, t, twdr0, n)[i]]
    ensures hw.clock == t + i + 1 && hw.twdr == hw.bus(t + i).data
    ensures status == 0 ==> i + 1 <= FirstFail(hw.bus, t, DataExpect(n)) && buf[..] == Fill(b0, hw.bus, t, i + 1)
    ensures status != 0 ==> Perform(hw.bus, t, DataExpect(n)) == Run(status, i + 1) && buf[..] == old(buf[..])
    ensures hw.twar == old(hw.twar) && hw.twbr == old(hw.twbr)
  {
    status := ReadByte(hw, ack, t, twdr0, n, i);
    if status == 0 {
      FillNext(b0, hw.bus, t, i);
      buf[i] := hw.twdr;
    }
  }

  /**
   * The read loop of `receive`: n bytes into buf[0..n), each acknowledged
   * except the last, stopping at the first status that is not the expected one.
   */
  method ReadData(hw: Twi, buf: array<bv8>, n: nat) returns (status: bv8)
    requires n < 256 && n <= buf.Length
    modifies hw, buf
    ensures var run := Perform(hw.bus, old(hw.clock), DataExpect(n));
      && status == run.status && hw.clock == old(hw.clock) + run.waits
      && hw.log == old(hw.log) + DataReads(hw.bus, old(hw.clock), old(hw.twdr), n)[..run.waits]
      && buf[..] == Fill(old(buf[..]), hw.bus, old(hw.clock), Got(run, n))
    ensures hw.twar == old(hw.twar) && hw.twbr == old(hw.twbr)
  {
    ghost var t := hw.clock;
    ghost var exp := DataExpect(n);
    ghost var cmds := DataReads(hw.bus, t, hw.twdr, n);
    ghost var log0 := hw.log;
    ghost var b0 := buf[..];
    // read data bytes
    var m := n;
    var i: nat := 0;
    while m != 0
      invariant i + m == n
      invariant hw.clock == t + i && hw.log == log0 + cmds[..i]
      invariant hw.twdr == if i == 0 then old(hw.twdr) else hw.bus(t + i - 1).data
      invariant i <= FirstFail(hw.bus, t, exp)
      invariant buf[..] == Fill(b0, hw.bus, t, i)
      invariant hw.twar == old(hw.twar) && hw.twbr == old(hw.twbr)
      decreases m
    {
      m := m - 1;
      var ack: bv8 := if m == 0 then 0 else TWEA;
      status := ReadInto(hw, buf, ack, t, old(hw.twdr), b0, n, i);
      TakeNext(cmds, i);
      if status != 0 {
        return;
      }
      i := i + 1;
    }
    TakeAll(cmds);
    return 0;
  }

  /**
   * As written, a data byte that the slave acknowledges with TW_MT_DATA_ACK,
   * the status the peripheral reports for an acknowledged data byte, makes
   * `transmit` fail with that status.
   */
  lemma TransmitRejectsDataAck(bus: nat -> Event, t: nat)
    requires Status(bus(t).status) == TW_MT_SLA_ACK && Status(bus(t + 1).status) == TW_MT_DATA_ACK
    ensures Perform(bus, t, WriteExpect(1, TW_MT_SLA_ACK)) == Run(TW_MT_DATA_ACK, 2)
  {
    PerformFailsAt(bus, t, WriteExpect(1, TW_MT_SLA_ACK), 1);
  }

  /** With each data byte checked against TW_MT_DATA_ACK, a slave that acknowledges every byte is a success. */
  lemma TransmitCheckedAcceptsAcks(bus: nat -> Event, t: nat, n: nat)
    requires Status(bus(t).status) == TW_MT_SLA_ACK
    requires forall k :: t + 1 <= k < t + n + 1 ==> Status(bus(k).status) == TW_MT_DATA_ACK
    ensures Perform(bus, t, WriteExpect(n, TW_MT_DATA_ACK)) == Run(0, n + 1)
  {
    var exp := WriteExpect(n, TW_MT_DATA_ACK);
    forall j | 0 <= j < |exp|
      ensures Status(bus(t + j).status) == exp[j]
    {
      if j > 0 {
        var k := t + j;
        assert Status(bus(k).status) == TW_MT_DATA_ACK;
      }
    }
    PerformSucceeds(bus, t, exp);
  }
}
