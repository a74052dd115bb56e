// `TWISlave`: an interrupt-driven I2C responder. Each TWI interrupt is one call
// of `ProcessInterrupt`, which reads the bus event from TWSR. Data moves
// through a buffer descriptor (pointer, remaining count, count done, "more
// chunks" flag) that the application supplies from its two callbacks
// `twiSlaveReceive` and `twiSlaveTransmit` by calling `use`.
module TwiSlave {
  import opened Avr

  const MAX_DONE_SIZE: nat := 0xff

  /** One call of an application callback: which one, the count so far and `more`. */
  datatype Call = Call(receive: bool, doneSize: nat, more: bool)

  /** What the application does inside a callback: nothing, or `use(ptr, size, more)`. */
  datatype Reply = Keep | Use(ptr: nat, size: nat, more: bool)

  /** The two callbacks, as functions of their arguments. */
  datatype Client = Client(onReceive: (nat, bool) -> Reply, onTransmit: (nat, bool) -> Reply)

  /**
   * The state an interrupt works on: the buffer descriptor, TWCR and TWDR, the
   * application memory the buffers point into, and the callbacks made so far.
   */
  datatype Slave = Slave(buf: nat, rem: nat, done: nat, more: bool,
                         twcr: bv8, twdr: bv8, mem: seq<bv8>, calls: seq<Call>)

  /** The 8-bit counters hold their values and the buffer lies inside the memory. */
  predicate Valid(s: Slave)
  {
    s.rem < 256 && s.done <= MAX_DONE_SIZE && s.buf + s.rem <= |s.mem|
  }

  /** A buffer handed to `use` has an 8-bit size and lies inside the memory. */
  predicate Fits(r: Reply, memSize: nat)
  {
    r.Use? ==> r.size < 256 && r.ptr + r.size <= memSize
  }

  ghost predicate ClientFits(c: Client, memSize: nat)
  {
    forall d, m :: Fits(c.onReceive(d, m), memSize) && Fits(c.onTransmit(d, m), memSize)
  }

  /** `start()`. */
  function StartStep(s: Slave): (r: Slave)
    ensures Valid(s) ==> Valid(r)
  {
    s.(done := 0, rem := 0, more := true)
  }

  /** `use(buf, size, more)`. */
  function UseBuffer(s: Slave, ptr: nat, size: nat, more: bool): Slave
  {
    s.(buf := ptr, rem := size, more := more)
  }

  /** A callback: it is recorded, and the application may install a new buffer. */
  function Notify(s: Slave, receive: bool, doneSize: nat, more: bool, c: Client): (r: Slave)
    ensures r.calls == s.calls + [Call(receive, doneSize, more)]
    ensures r.mem == s.mem && r.twcr == s.twcr && r.twdr == s.twdr && r.done == s.done
    ensures Valid(s) && ClientFits(c, |s.mem|) ==> Valid(r)
  {
    var s1 := s.(calls := s.calls + [Call(receive, doneSize, more)]);
    match (if receive then c.onReceive(doneSize, more) else c.onTransmit(doneSize, more))
    case Keep => s1
    case Use(ptr, size, m) => UseBuffer(s1, ptr, size, m)
  }

  /** `nackIfDone()`. */
  function NackIfDoneStep(s: Slave): (r: Slave)
    ensures r == s.(twcr := r.twcr)
  {
    if s.rem == 0 || s.done == MAX_DONE_SIZE then s.(twcr := s.twcr & !TWEA) else s
  }

  /** The guard of `receiveByte` and `transmitByte`: room left in the buffer and in the count. */
  predicate HasRoom(s: Slave)
  {
    s.rem > 0 && s.done < MAX_DONE_SIZE
  }

  /** `receiveByte()`. */
  function ReceiveByteStep(s: Slave): (r: Slave)
    requires Valid(s)
    ensures Valid(r) && |r.mem| == |s.mem| && r.calls == s.calls && r.twcr == s.twcr
  {
    if HasRoom(s) then
      s.(mem := s.mem[s.buf := s.twdr], buf := s.buf + 1, rem := s.rem - 1, done := s.done + 1)
    else s
  }

  /** `transmitByte()`. */
  function TransmitByteStep(s: Slave): (r: Slave)
    requires Valid(s)
    ensures Valid(r) && r.mem == s.mem && r.calls == s.calls && r.twcr == s.twcr
  {
    if HasRoom(s) then
      s.(twdr := s.mem[s.buf], buf := s.buf + 1, rem := s.rem - 1, done := s.done + 1)
    else s.(twdr := 0)
  }

  /** After a byte: ask the callback for more room or data when the buffer ran out and more was promised. */
  function Refill(s: Slave, receive: bool, c: Client): (r: Slave)
    ensures r.mem == s.mem && r.done == s.done
    ensures Valid(s) && ClientFits(c, |s.mem|) ==> Valid(r)
  {
    if s.rem == 0 && s.more then Notify(s, receive, s.done, true, c) else s
  }

  /** The end of a transfer: the final callback, then acknowledge again. */
  function Finish(s: Slave, receive: bool, c: Client): (r: Slave)
    ensures r.mem == s.mem && r.calls == s.calls + [Call(receive, s.done, false)]
    ensures Valid(s) && ClientFits(c, |s.mem|) ==> Valid(r)
  {
    var s1 := Notify(s, receive, s.done, false, c);
    s1.(twcr := s1.twcr | TWEA)
  }

  /** A data byte received and acknowledged: store it, ask for more room if needed, maybe NACK next. */
  function DataAck(s: Slave, c: Client): (r: Slave)
    requires Valid(s) && ClientFits(c, |s.mem|)
    ensures Valid(r) && |r.mem| == |s.mem|
  {
    NackIfDoneStep(Refill(ReceiveByteStep(s), true, c))
  }

  /** The final `TWCR |= TWINT` that lets the hardware go on. */
  function Release(s: Slave): Slave
  {
    s.(twcr := s.twcr | TWINT)
  }

  predicate ReceiverEvent(status: bv8)
  {
    status == TW_SR_SLA_ACK || status == TW_SR_DATA_ACK || status == TW_SR_DATA_NACK || status == TW_SR_STOP
  }

  predicate TransmitterEvent(status: bv8)
  {
    status == TW_ST_SLA_ACK || status == TW_ST_DATA_ACK || status == TW_ST_DATA_NACK || status == TW_ST_LAST_DATA
  }

  /** The switch of `_processInterrupt`, before the final TWINT. */
  function Dispatch(s: Slave, status: bv8, c: Client): (r: Slave)
    requires Valid(s) && ClientFits(c, |s.mem|)
    ensures Valid(r) && |r.mem| == |s.mem|
  {
    if ReceiverEvent(status) then OnReceive(s, status, c)
    else if TransmitterEvent(status) then OnTransmit(s, status, c)
    else if status == TW_BUS_ERROR then s.(twcr := s.twcr | TWEA | TWSTO)
    else s.(twcr := s.twcr | TWEA)
  }

  /** The slave-receiver cases of the switch. */
  function OnReceive(s: Slave, status: bv8, c: Client): (r: Slave)
    requires Valid(s) && ClientFits(c, |s.mem|) && ReceiverEvent(status)
    ensures Valid(r) && |r.mem| == |s.mem|
  {
    if status == TW_SR_SLA_ACK then NackIfDoneStep(Notify(StartStep(s), true, 0, true, c))
    else if status == TW_SR_DATA_ACK then DataAck(s, c)
    else if status == TW_SR_DATA_NACK then Finish(ReceiveByteStep(s), true, c)
    else Finish(s, true, c)
  }

  /** The slave-transmitter cases of the switch. */
  function OnTransmit(s: Slave, status: bv8, c: Client): (r: Slave)
    requires Valid(s) && ClientFits(c, |s.mem|) && TransmitterEvent(status)
    ensures Valid(r) && |r.mem| == |s.mem|
  {
    if status == TW_ST_SLA_ACK || status == TW_ST_DATA_ACK then
      var s1 := if status == TW_ST_SLA_ACK then Notify(StartStep(s), false, 0, true, c) else s;
      NackIfDoneStep(Refill(TransmitByteStep(s1), false, c))
    else Finish(s, false, c)
  }

  /** `_processInterrupt()` for the bus event `status`. */
  function Interrupt(s: Slave, status: bv8, c: Client): (r: Slave)
    requires Valid(s) && ClientFits(c, |s.mem|)
    ensures Valid(r) && |r.mem| == |s.mem| && r.twcr & TWINT == TWINT
  {
    Release(Dispatch(s, status, c))
  }

  // ----------- properties -----------

  /**
   * `receiveByte` stores TWDR at the buffer pointer and advances exactly when there is
   * room; otherwise it changes nothing. No other byte of memory changes.
   */
  lemma ReceiveByteStores(s: Slave)
    requires Valid(s)
    ensures var s1 := ReceiveByteStep(s);
      && (HasRoom(s) <==> s1.done == s.done + 1)
      && (HasRoom(s) ==> s1.mem[s.buf] == s.twdr && s1.rem == s.rem - 1 && s1.buf == s.buf + 1)
      && (!HasRoom(s) ==> s1 == s)
      && (forall k :: 0 <= k < |s.mem| && k != s.buf ==> s1.mem[k] == s.mem[k])
      && |s1.mem| == |s.mem| && s1.calls == s.calls && s1.twcr == s.twcr
  {
  }

  /**
   * `transmitByte` loads the next buffer byte into TWDR and advances exactly when there
   * is room; otherwise it loads 0 and leaves the counters alone.
   */
  lemma TransmitByteLoads(s: Slave)
    requires Valid(s)
    ensures var s1 := TransmitByteStep(s);
      && (HasRoom(s) <==> s1.done == s.done + 1)
      && (HasRoom(s) ==> s1.twdr == s.mem[s.buf] && s1.rem == s.rem - 1 && s1.buf == s.buf + 1)
      && (!HasRoom(s) ==> s1 == s.(twdr := 0))
      && s1.mem == s.mem && s1.calls == s.calls && s1.twcr == s.twcr
  {
  }

  /** `nackIfDone` clears TWEA exactly when the buffer is used up or the count is at 255, and no other bit. */
  lemma NackIfDoneClears(s: Slave)
    ensures var s1 := NackIfDoneStep(s);
      && (s.rem == 0 || s.done == MAX_DONE_SIZE ==> s1.twcr & TWEA == 0)
      && (s.rem != 0 && s.done != MAX_DONE_SIZE ==> s1.twcr == s.twcr)
      && s1.twcr | TWEA == s.twcr | TWEA
      && s1 == s.(twcr := s1.twcr)
  {
  }

  /**
   * Addressed as a receiver, the slave restarts its counters and asks
   * `twiSlaveReceive(0, true)` for the first buffer; without one it will NACK.
   */
  lemma AddressMatch(s: Slave, c: Client)
    requires Valid(s) && ClientFits(c, |s.mem|)
    ensures var s1 := Interrupt(s, TW_SR_SLA_ACK, c);
      && s1.calls == s.calls + [Call(true, 0, true)]
      && s1.done == 0
      && (c.onReceive(0, true) == Keep ==> s1.rem == 0 && s1.twcr & TWEA == 0)
  {
  }

  /**
   * Addressed as a transmitter, the slave asks `twiSlaveTransmit(0, true)` for data and
   * loads its first byte into TWDR, or 0 when it gets none.
   */
  lemma AddressMatchTransmit(s: Slave, c: Client)
    requires Valid(s) && ClientFits(c, |s.mem|)
    ensures var s1 := Interrupt(s, TW_ST_SLA_ACK, c);
      var r := c.onTransmit(0, true);
      && s1.calls[..|s.calls| + 1] == s.calls + [Call(false, 0, true)]
      && (r.Use? && r.size > 0 ==> s1.twdr == s.mem[r.ptr] && s1.done == 1)
      && (!r.Use? || r.size == 0 ==> s1.twdr == 0 && s1.done == 0)
  {
    var t := Notify(StartStep(s), false, 0, true, c);
    var u := Refill(TransmitByteStep(t), false, c);
    assert u.calls[..|s.calls| + 1] == s.calls + [Call(false, 0, true)];
  }

  /**
   * During a transfer, the callback is asked for a further chunk only when the buffer
   * has just run out and the application promised more.
   */
  lemma FurtherChunkOnlyWhenEmpty(s: Slave, c: Client)
    requires Valid(s) && ClientFits(c, |s.mem|)
    ensures var r := ReceiveByteStep(s);
      var s1 := Interrupt(s, TW_SR_DATA_ACK, c);
      && (r.rem == 0 && r.more ==> s1.calls == s.calls + [Call(true, r.done, true)])
      && (!(r.rem == 0 && r.more) ==> s1.calls == s.calls)
    ensures var t := TransmitByteStep(s);
      var s1 := Interrupt(s, TW_ST_DATA_ACK, c);
      && (t.rem == 0 && t.more ==> s1.calls == s.calls + [Call(false, t.done, true)])
      && (!(t.rem == 0 && t.more) ==> s1.calls == s.calls)
  {
  }

  /**
   * At the end of a transfer the callback receives the final count with more cleared
   * and TWEA is set again; a receiver that NACKed first keeps the final byte if it had room.
   */
  lemma TransferEnd(s: Slave, status: bv8, c: Client)
    requires Valid(s) && ClientFits(c, |s.mem|)
    requires status in {TW_SR_DATA_NACK, TW_SR_STOP, TW_ST_DATA_NACK, TW_ST_LAST_DATA}
    ensures var before := if status == TW_SR_DATA_NACK then ReceiveByteStep(s) else s;
      var s1 := Interrupt(s, status, c);
      && s1.calls == s.calls + [Call(status == TW_SR_DATA_NACK || status == TW_SR_STOP, before.done, false)]
      && s1.twcr & (TWEA | TWINT) == TWEA | TWINT
      && s1.mem == before.mem
  {
  }

  /** A bus error sets STO and TWEA (and TWINT) and changes nothing else. */
  lemma BusErrorRecovers(s: Slave, c: Client)
    requires Valid(s) && ClientFits(c, |s.mem|)
    ensures Interrupt(s, TW_BUS_ERROR, c) == s.(twcr := s.twcr | TWEA | TWSTO | TWINT)
  {
  }

  /**
   * The state after the master wrote the bytes d in a row, each acknowledged: one
   * TW_SR_DATA_ACK interrupt per byte (see `DataAckStores`).
   */
  function ReceiveAll(s: Slave, d: seq<bv8>, c: Client): (r: Slave)
    requires Valid(s) && ClientFits(c, |s.mem|)
    ensures Valid(r) && |r.mem| == |s.mem|
    decreases |d|
  {
    if d == [] then s
    else
      ReceiveAll(Release(DataAck(s.(twdr := d[0]), c)), d[1..], c)
  }

  /**
   * An acknowledged data byte that does not exhaust the buffer is stored and counted,
   * TWEA stays as it was, and no callback is made.
   */
  lemma DataAckStores(s: Slave, c: Client)
    requires Valid(s) && ClientFits(c, |s.mem|)
    requires s.rem > 1 && s.done < MAX_DONE_SIZE - 1
    ensures Interrupt(s, TW_SR_DATA_ACK, c) == Release(DataAck(s, c))
    ensures Release(DataAck(s, c)) ==
      s.(mem := s.mem[s.buf := s.twdr], buf := s.buf + 1, rem := s.rem - 1, done := s.done + 1,
         twcr := s.twcr | TWINT)
  {
  }

  /** The memory after the bytes d are written one by one from index b on. */
  function Written(m: seq<bv8>, b: nat, d: seq<bv8>): (r: seq<bv8>)
    requires b + |d| <= |m|
    ensures |r| == |m|
    decreases |d|
  {
    if d == [] then m else Written(m[b := d[0]], b + 1, d[1..])
  }

  /** Writing d byte by byte from b replaces exactly m[b..b + |d|) by d. */
  lemma {:induction false} WrittenSplice(m: seq<bv8>, b: nat, d: seq<bv8>)
    requires b + |d| <= |m|
    ensures Written(m, b, d) == m[..b] + d + m[b + |d|..]
    decreases |d|
  {
    if d != [] {
      var m1 := m[b := d[0]];
      WrittenSplice(m1, b + 1, d[1..]);
      assert m1[..b + 1] == m[..b] + [d[0]];
      assert m1[b + 1 + |d[1..]|..] == m[b + |d|..];
      assert d == [d[0]] + d[1..];
    }
  }

  /**
   * Bytes the master writes while the buffer has room for all of them and one more
   * are written one by one at the buffer pointer.
   */
  lemma {:induction false} ReceiveAllWrites(s: Slave, d: seq<bv8>, c: Client)
    requires Valid(s) && ClientFits(c, |s.mem|)
    requires |d| < s.rem && s.done + |d| < MAX_DONE_SIZE
    ensures ReceiveAll(s, d, c).mem == Written(s.mem, s.buf, d)
    decreases |d|
  {
    if d != [] {
      var s0 := s.(twdr := d[0]);
      DataAckStores(s0, c);
      ReceiveAllWrites(Release(DataAck(s0, c)), d[1..], c);
    }
  }

  /** So the bytes land in order at the buffer pointer and nothing else in memory changes. */
  lemma ReceiveAllStores(s: Slave, d: seq<bv8>, c: Client)
    requires Valid(s) && ClientFits(c, |s.mem|)
    requires |d| < s.rem && s.done + |d| < MAX_DONE_SIZE
    ensures ReceiveAll(s, d, c).mem == s.mem[..s.buf] + d + s.mem[s.buf + |d|..]
  {
    ReceiveAllWrites(s, d, c);
    WrittenSplice(s.mem, s.buf, d);
  }

  /**
   * Under the same condition the buffer descriptor advances by one per byte and no
   * callback is made.
   */
  lemma {:induction false} ReceiveAllCounts(s: Slave, d: seq<bv8>, c: Client)
    requires Valid(s) && ClientFits(c, |s.mem|)
    requires |d| < s.rem && s.done + |d| < MAX_DONE_SIZE
    ensures var r := ReceiveAll(s, d, c);
      && r.buf == s.buf + |d| && r.rem == s.rem - |d| && r.done == s.done + |d|
      && r.calls == s.calls && r.more == s.more
    decreases |d|
  {
    if d != [] {
      var s0 := s.(twdr := d[0]);
      DataAckStores(s0, c);
      ReceiveAllCounts(Release(DataAck(s0, c)), d[1..], c);
    }
  }

  // ----------- the class -----------

  /** `TWISlaveClass` with the peripheral it drives and the memory its buffers point into. */
  class TwiSlaveClass {
    const hw: Twi
    const mem: array<bv8>
    var buf: nat
    var remSize: nat
    var doneSize: nat
    var more: bool
    ghost var calls: seq<Call>

    /** The modelled state, as the specification functions above see it. */
    ghost function Snapshot(): Slave
      reads this, hw, mem
    {
      Slave(buf, remSize, doneSize, more, hw.twcr, hw.twdr, mem[..], calls)
    }

    ghost predicate Ok()
      reads this, hw, mem
    {
      Valid(Snapshot())
    }

    constructor(hw: Twi, mem: array<bv8>)
      ensures this.hw == hw && this.mem == mem && Snapshot() == Slave(0, 0, 0, false, hw.twcr, hw.twdr, mem[..], [])
    {
      this.hw, this.mem := hw, mem;
      buf, remSize, doneSize, more, calls := 0, 0, 0, false, [];
    }

    /** `begin(addr)`: answer to addr, acknowledge, enable the peripheral and its interrupt. */
    method Begin(addr: bv8)
      modifies hw
      ensures hw.twar == addr << 1 && hw.twcr == TWINT | TWEA | TWEN | TWIE
      ensures hw.twdr == old(hw.twdr) && hw.twbr == old(hw.twbr) && hw.twsr == old(hw.twsr)
    {
      hw.twar := addr << 1;
      hw.twcr := TWINT | TWEA | TWEN | TWIE;
    }

    method Start()
      modifies this
      ensures Snapshot() == StartStep(old(Snapshot()))
    {
      doneSize, remSize, more := 0, 0, true;
    }

    /** `use(buf, size, more)`. */
    method Use(ptr: nat, size: nat, more: bool)
      modifies this
      ensures Snapshot() == UseBuffer(old(Snapshot()), ptr, size, more)
    {
      buf, remSize, this.more := ptr, size, more;
    }

    /** A call of `twiSlaveReceive` or `twiSlaveTransmit`, answered by the client. */
    method Callback(receive: bool, d: nat, m: bool, c: Client)
      modifies this
      ensures Snapshot() == Notify(old(Snapshot()), receive, d, m, c)
    {
      calls := calls + [Call(receive, d, m)];
      var reply := if receive then c.onReceive(d, m) else c.onTransmit(d, m);
      if reply.Use? {
        Use(reply.ptr, reply.size, reply.more);
      }
    }

    method NackIfDone()
      modifies hw
      ensures Snapshot() == NackIfDoneStep(old(Snapshot()))
      ensures unchanged(this) && hw.twar == old(hw.twar) && hw.twbr == old(hw.twbr) && hw.twsr == old(hw.twsr)
    {
      if remSize == 0 || doneSize == MAX_DONE_SIZE {
        hw.twcr := hw.twcr & !TWEA;
      }
    }

    method ReceiveByte()
      requires Ok()
      modifies this, mem
      ensures Snapshot() == ReceiveByteStep(old(Snapshot()))
    {
      if remSize > 0 && doneSize < MAX_DONE_SIZE {
        mem[buf] := hw.twdr;
        buf := buf + 1;
        remSize := remSize - 1;
        doneSize := doneSize + 1;
      }
    }

    method TransmitByte()
      requires Ok()
      modifies this, hw
      ensures Snapshot() == TransmitByteStep(old(Snapshot()))
      ensures hw.twar == old(hw.twar) && hw.twbr == old(hw.twbr) && hw.twsr == old(hw.twsr)
    {
      if remSize > 0 && doneSize < MAX_DONE_SIZE {
        hw.twdr := mem[buf];
        buf := buf + 1;
        remSize := remSize - 1;
        doneSize := doneSize + 1;
      } else {
        hw.twdr := 0;
      }
    }

    /** `_processInterrupt()`: handle the event in TWSR and release the bus. */
    method ProcessInterrupt(c: Client)
      requires Ok() && ClientFits(c, mem.Length)
      modifies this, hw, mem
      ensures Snapshot() == Interrupt(old(Snapshot()), Status(old(hw.twsr)), c)
      ensures hw.twar == old(hw.twar) && hw.twbr == old(hw.twbr) && hw.twsr == old(hw.twsr)
    {
      var status := Status(hw.twsr);
      DispatchEvent(status, c);
      hw.twcr := hw.twcr | TWINT;
    }

    method DispatchEvent(status: bv8, c: Client)
      requires Ok() && ClientFits(c, mem.Length)
      modifies this, hw, mem
      ensures Snapshot() == Dispatch(old(Snapshot()), status, c)
      ensures hw.twar == old(hw.twar) && hw.twbr == old(hw.twbr) && hw.twsr == old(hw.twsr)
    {
      if ReceiverEvent(status) {
        OnReceiveEvent(status, c);
      } else if TransmitterEvent(status) {
        OnTransmitEvent(status, c);
      } else if status == TW_BUS_ERROR {
        hw.twcr := hw.twcr | TWEA | TWSTO;
      } else {
        hw.twcr := hw.twcr | TWEA;
      }
    }

    /** The slave-receiver cases of `_processInterrupt`. */
    method OnReceiveEvent(status: bv8, c: Client)
      requires Ok() && ClientFits(c, mem.Length)
      requires ReceiverEvent(status)
      modifies this, hw, mem
      ensures Snapshot() == OnReceive(old(Snapshot()), status, c)
      ensures hw.twar == old(hw.twar) && hw.twbr == old(hw.twbr) && hw.twsr == old(hw.twsr)
    {
      ghost var s := Snapshot();
      if status == TW_SR_SLA_ACK {
        Start();
        Callback(true, 0, true, c);
        NackIfDone();
      } else if status == TW_SR_DATA_ACK {
        ReceiveByte();
        ghost var r := Snapshot();
        if remSize == 0 && more {
          Callback(true, doneSize, true, c);
        }
        assert Snapshot() == Refill(r, true, c);
        NackIfDone();
      } else {
        if status == TW_SR_DATA_NACK {
          ReceiveByte();
        }
        ghost var r := Snapshot();
        assert r == if status == TW_SR_DATA_NACK then ReceiveByteStep(s) else s;
        Callback(true, doneSize, false, c);
        hw.twcr := hw.twcr | TWEA;
        assert Snapshot() == Finish(r, true, c);
      }
    }

    /** The slave-transmitter cases of `_processInterrupt`. */
    method OnTransmitEvent(status: bv8, c: Client)
      requires Ok() && ClientFits(c, mem.Length)
      requires TransmitterEvent(status)
      modifies this, hw
      ensures Snapshot() == OnTransmit(old(Snapshot()), status, c)
      ensures hw.twar == old(hw.twar) && hw.twbr == old(hw.twbr) && hw.twsr == old(hw.twsr)
    {
      ghost var s := Snapshot();
      if status == TW_ST_SLA_ACK || status == TW_ST_DATA_ACK {
        if status == TW_ST_SLA_ACK {
          Start();
          Callback(false, 0, true, c);
        }
        ghost var t0 := Snapshot();
        assert t0 == if status == TW_ST_SLA_ACK then Notify(StartStep(s), false, 0, true, c) else s;
        TransmitByte();
        ghost var t := Snapshot();
        if remSize == 0 && more {
          Callback(false, doneSize, true, c);
        }
        assert Snapshot() == Refill(t, false, c);
        NackIfDone();
      } else {
        Callback(false, doneSize, false, c);
        hw.twcr := hw.twcr | TWEA;
      }
    }
  }
}
