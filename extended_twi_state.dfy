// The interrupt-driven TWI engine of `extended_twi.c` as a state machine over
// its static variables: the phase `twi_state`, the address byte `twi_slarw`,
// the register offset of a read-at, the three 32-byte buffers with their
// indices, and `twi_error`. Each
// interrupt is one step taking the status code (`TW_STATUS`, the prescaler
// bits masked) and the byte then in TWDR. What the engine puts on the bus is
// the sequence of its writes to TWDR and TWCR (`out`); TWCR always keeps the
// enable bits of `twi_twcr_base`, TWEA among them, unless a reply NACKs.
//
// An access the C code makes outside a 32-byte buffer is not given a value:
// it sets `overrun` and the byte is dropped (a write) or read as 0.
module ExtendedTwiState {
  import opened CInt
  import opened Avr

  const BUFFER_LENGTH: int := 32

  // `twi_state`.
  const READY: int := 0
  const MRX: int := 1
  const MRXR: int := 2
  const MTX: int := 3
  const SRX: int := 4
  const STX: int := 5

  // The status codes the library returns.
  const STATUS_BUSY: int := 0
  const STATUS_OK: int := 1
  const STATUS_SLA_NACK: int := 2
  const STATUS_DATA_NACK: int := 3
  const STATUS_OTHER: int := 4
  const STATUS_BAD_ARGS: int := 5

  /** `twi_error` while no error has occurred. */
  const NO_ERROR: bv8 := 0xff

  /** The CPU clock of the boards the library runs on, and the bus rate `twi_init` sets. */
  const F_CPU: int := 16_000_000
  const TWI_FREQ: int := 100_000

  datatype Option<X> = None | Some(value: X)

  /** A write of the engine to the bus: a byte loaded in TWDR, or TWCR written to go on with TWEA set or not, to START, to STOP, or to release the bus. */
  datatype Signal = Load(b: int) | Reply(ack: bool) | Start | Stop | Release

  /** An interrupt: the status code and the byte in TWDR. */
  datatype Irq = Irq(status: bv8, data: int)

  datatype Engine = Engine(
    state: int,
    slarw: int,
    slAtBytes: int, slAtLSB: int, slAtMSB: int,
    master: seq<int>, masterIndex: int, masterLength: int,
    tx: seq<int>, txIndex: int, txLength: int,
    rx: seq<int>, rxIndex: int,
    error: bv8,
    overrun: bool,
    out: seq<Signal>)

  /** The types of the globals: bytes, three 32-byte buffers, a slave transmit length within its buffer and a receive index that never passes it. */
  predicate Valid(t: Engine)
  {
    && READY <= t.state <= STX
    && IsUInt8(t.slarw) && IsUInt8(t.slAtBytes) && IsUInt8(t.slAtLSB) && IsUInt8(t.slAtMSB)
    && |t.master| == BUFFER_LENGTH && |t.tx| == BUFFER_LENGTH && |t.rx| == BUFFER_LENGTH
    && IsUInt8(t.masterIndex) && IsUInt8(t.masterLength)
    && IsUInt8(t.txIndex) && 0 <= t.txLength <= BUFFER_LENGTH
    && 0 <= t.rxIndex <= BUFFER_LENGTH
  }

  function Zeros(): (r: seq<int>)
    ensures |r| == BUFFER_LENGTH
  {
    seq(BUFFER_LENGTH, _ => 0)
  }

  /** The byte at `i` of a buffer; 0 outside it, where the C code reads past the array. */
  function At(s: seq<int>, i: int): (r: int)
    ensures 0 <= i < |s| ==> r == s[i]
  {
    if 0 <= i < |s| then s[i] else 0
  }

  /** The buffer with `d` stored at `i`; unchanged outside it, where the C code writes past the array. */
  function Put(s: seq<int>, i: int, d: int): (r: seq<int>)
    ensures |r| == |s|
    ensures 0 <= i < |s| ==> r == s[i := d]
  {
    if 0 <= i < |s| then s[i := d] else s
  }

  /** The first `n` bytes of a buffer. */
  function Prefix(s: seq<int>, n: int): (r: seq<int>)
    ensures 0 <= n <= |s| ==> r == s[..n]
  {
    if 0 <= n <= |s| then s[..n] else s
  }

  /** `data` copied over the start of a buffer. */
  function Overwrite(s: seq<int>, data: seq<int>): (r: seq<int>)
    ensures |data| <= |s| ==> |r| == |s| && r[..|data|] == data && r[|data|..] == s[|data|..]
  {
    if |data| <= |s| then data + s[|data|..] else data
  }

  /**
   * `twi_init`: idle, with zeroed buffers and TWCR enabling acknowledgements; the other
   * globals are those of static storage, zero, so `twi_error` starts at 0, not 0xFF.
   */
  function Init(): (t: Engine)
    ensures Valid(t) && t.state == READY && t.error == 0 && t.out == []
  {
    Engine(READY, 0, 0, 0, 0, Zeros(), 0, 0, Zeros(), 0, 0, Zeros(), 0, 0, false, [])
  }

  // ----------- Status -----------

  /** `twi_error2status`. */
  function Error2Status(err: bv8): (r: int)
  {
    if err == NO_ERROR then STATUS_OK
    else if err == TW_MT_SLA_NACK then STATUS_SLA_NACK
    else if err == TW_MT_DATA_NACK then STATUS_DATA_NACK
    else STATUS_OTHER
  }

  /** The errors the interrupt handler records, each a status of its own or OTHER; only "no error" is OK. */
  lemma Error2StatusCodes(err: bv8)
    ensures STATUS_OK <= Error2Status(err) <= STATUS_OTHER
    ensures Error2Status(err) == STATUS_OK <==> err == NO_ERROR
    ensures err == TW_MT_SLA_NACK ==> Error2Status(err) == STATUS_SLA_NACK
    ensures err == TW_MT_DATA_NACK ==> Error2Status(err) == STATUS_DATA_NACK
    ensures err == TW_MT_ARB_LOST || err == TW_BUS_ERROR ==> Error2Status(err) == STATUS_OTHER
  {
  }

  /** `twi_status`: BUSY while a transfer runs, otherwise the outcome of the last one. */
  function Status(t: Engine): (r: int)
    ensures r == STATUS_BUSY <==> t.state != READY
  {
    if t.state == READY then Error2Status(t.error) else STATUS_BUSY
  }

  // ----------- Starting a master transfer -----------

  /** The checks every `twi_begin*` makes before it touches anything: the length fits the buffer, and the engine is idle. */
  function Refusal(t: Engine, length: int): int
  {
    if BUFFER_LENGTH < length then STATUS_BAD_ARGS
    else if t.state != READY then STATUS_BUSY
    else STATUS_OK
  }

  /** What every accepted `twi_begin*` sets: the phase, no error, the buffer indices, the address byte, and a START. */
  function StartMaster(t: Engine, state: int, slarw: int, length: int): Engine
  {
    t.(state := state, error := NO_ERROR, masterIndex := 0, masterLength := length, slarw := slarw,
       out := t.out + [Start])
  }

  /** `twi_beginReadFrom`: a read of `length` bytes; the master NACKs the byte at index `length - 1`. */
  function BeginReadFrom(t: Engine, address: int, length: int): (r: (Engine, int))
    requires Valid(t) && IsUInt8(address) && IsUInt8(length)
    ensures Valid(r.0)
  {
    var rc := Refusal(t, length);
    if rc != STATUS_OK then (t, rc)
    else (StartMaster(t, MRX, ToUInt8(address * 2 + 1), ToUInt8(length - 1)), rc)
  }

  /** `twi_beginReadFromAt`: a write of the one-byte offset, then a read of `length` bytes. */
  function BeginReadFromAt(t: Engine, address: int, offset: int, length: int): (r: (Engine, int))
    requires Valid(t) && IsUInt8(address) && IsUInt8(offset) && IsUInt8(length)
    ensures Valid(r.0)
  {
    var rc := Refusal(t, length);
    if rc != STATUS_OK then (t, rc)
    else (StartMaster(t, MRXR, ToUInt8(address * 2), ToUInt8(length - 1)).(slAtLSB := offset, slAtBytes := 1), rc)
  }

  /** `twi_beginReadFromAt2`: a write of the two-byte offset, then a read of `length` bytes. */
  function BeginReadFromAt2(t: Engine, address: int, offset: int, length: int): (r: (Engine, int))
    requires Valid(t) && IsUInt8(address) && IsUInt16(offset) && IsUInt8(length)
    ensures Valid(r.0)
  {
    var rc := Refusal(t, length);
    if rc != STATUS_OK then (t, rc)
    else (StartMaster(t, MRXR, ToUInt8(address * 2), ToUInt8(length - 1)).(slAtMSB := offset / 256, slAtLSB := offset % 256, slAtBytes := 2), rc)
  }

  /** `twi_beginWriteTo`: the bytes copied into the master buffer, then a write of them. */
  function BeginWriteTo(t: Engine, address: int, data: seq<int>): (r: (Engine, int))
    requires Valid(t) && IsUInt8(address) && IsUInt8(|data|)
    ensures Valid(r.0)
  {
    var rc := Refusal(t, |data|);
    if rc != STATUS_OK then (t, rc)
    else (StartMaster(t, MTX, ToUInt8(address * 2), |data|).(master := Overwrite(t.master, data)), rc)
  }

  /**
   * Every `twi_begin*` refuses a length over 32 with BAD_ARGS and a busy engine with
   * BUSY, in that order, and then changes nothing; otherwise it returns OK with no
   * error recorded, an empty buffer and a START on the bus.
   */
  lemma BeginRefusals(t: Engine, address: int, offset: int, data: seq<int>)
    requires Valid(t) && IsUInt8(address) && IsUInt16(offset) && IsUInt8(|data|)
    ensures var n := |data|;
      var all := [BeginReadFrom(t, address, n), BeginReadFromAt(t, address, offset % 256, n),
                  BeginReadFromAt2(t, address, offset, n), BeginWriteTo(t, address, data)];
      forall k :: 0 <= k < |all| ==>
        && (all[k].1 == STATUS_BAD_ARGS <==> n > BUFFER_LENGTH)
        && (all[k].1 == STATUS_BUSY <==> n <= BUFFER_LENGTH && t.state != READY)
        && (all[k].1 != STATUS_OK ==> all[k].0 == t)
        && (all[k].1 == STATUS_OK ==>
              all[k].0.error == NO_ERROR && all[k].0.masterIndex == 0 && all[k].0.out == t.out + [Start] && all[k].0.state != READY)
  {
  }

  /** `twi_beginWriteTo` keeps exactly the caller's bytes, to be sent to `address` with the write bit. */
  lemma BeginWriteToCopies(t: Engine, address: int, data: seq<int>)
    requires Valid(t) && IsUInt8(address) && |data| <= BUFFER_LENGTH && t.state == READY
    ensures var (t1, rc) := BeginWriteTo(t, address, data);
      && rc == STATUS_OK && t1.state == MTX && t1.master[..|data|] == data && t1.masterLength == |data|
      && t1.slarw == ToUInt8(address * 2) && t1.slarw % 2 == 0
  {
    var t1 := BeginWriteTo(t, address, data).0;
    assert t1.master == data + t.master[|data|..];
  }

  // ----------- The slave transmit buffer -----------

  /** `twi_transmit`: the slave's reply replaced by `data`, refused when too long (1) or when not transmitting as a slave (2). */
  function Transmit(t: Engine, data: seq<int>): (r: (Engine, int))
  {
    if BUFFER_LENGTH < |data| then (t, 1)
    else if t.state != STX then (t, 2)
    else (t.(txLength := |data|, tx := Overwrite(t.tx, data)), 0)
  }

  /** The calls of `twi_transmit` the slave transmit handler makes, in order. */
  function Handle(t: Engine, calls: seq<seq<int>>): (r: Engine)
    decreases |calls|
  {
    if calls == [] then t else Handle(Transmit(t, calls[0]).0, calls[1..])
  }

  /** The last of the calls that fits the buffer, if any: the reply `twi_transmit` accepted last. */
  function LastFit(calls: seq<seq<int>>): (r: Option<seq<int>>)
    ensures r.Some? ==> |r.value| <= BUFFER_LENGTH && r.value in calls
    ensures r.None? <==> forall k :: 0 <= k < |calls| ==> |calls[k]| > BUFFER_LENGTH
    decreases |calls|
  {
    if calls == [] then None
    else match LastFit(calls[1..]) {
      case Some(d) => Some(d)
      case None => if |calls[0]| <= BUFFER_LENGTH then Some(calls[0]) else None
    }
  }

  /**
   * Each accepted `twi_transmit` replaces the whole reply, so what the handler leaves is the
   * last call that fits; with none, the buffer is as it was.
   */
  lemma {:induction false} LastTransmitWins(t: Engine, calls: seq<seq<int>>)
    requires Valid(t) && t.state == STX
    ensures Valid(Handle(t, calls)) && Handle(t, calls).state == STX
    ensures Handle(t, calls) == t.(txLength := Handle(t, calls).txLength, tx := Handle(t, calls).tx)
    ensures LastFit(calls).None? ==> Handle(t, calls) == t
    ensures LastFit(calls).Some? ==>
      Handle(t, calls).txLength == |LastFit(calls).value| && Handle(t, calls).tx[..|LastFit(calls).value|] == LastFit(calls).value
    decreases |calls|
  {
    if calls != [] {
      var t1 := Transmit(t, calls[0]).0;
      LastTransmitWins(t1, calls[1..]);
      assert Handle(t, calls) == Handle(t1, calls[1..]);
    }
  }

  // ----------- Results of a master read -----------

  function Min(a: int, b: int): int { if a < b then a else b }

  /**
   * `twi_getDataFromRead`: the bytes of the last read, when the engine is idle, no error
   * was recorded and the caller's buffer holds them; otherwise nothing.
   */
  function GetDataFromRead(t: Engine, length: int): (r: (int, seq<int>))
    ensures r.0 == 0 || (r.0 == t.masterIndex && r.0 <= length)
    ensures r.0 != 0 <==> t.state == READY && t.error == NO_ERROR && t.masterIndex != 0 && t.masterIndex <= length
    ensures 0 <= r.0 <= BUFFER_LENGTH && r.0 <= |t.master| ==> r.1 == t.master[..r.0]
  {
    if t.state == READY && t.error == NO_ERROR && length >= t.masterIndex then
      (t.masterIndex, Prefix(t.master, Min(t.masterIndex, BUFFER_LENGTH)))
    else (0, [])
  }

  // ----------- The interrupt handler -----------

  function ReplyWith(t: Engine, a: bool): Engine
  {
    t.(out := t.out + [Reply(a)])
  }

  /** A byte loaded in TWDR, then the transfer let go on, acknowledging or not. */
  function Send(t: Engine, b: int, ack: bool): Engine
  {
    t.(out := t.out + [Load(b), Reply(ack)])
  }

  /** `twi_stop`: STOP on the bus (TWCR keeps TWEA), then idle. */
  function StopBus(t: Engine): Engine
  {
    t.(state := READY, out := t.out + [Stop])
  }

  /** `twi_releaseBus`: the bus released without a STOP, then idle. */
  function ReleaseBus(t: Engine): Engine
  {
    t.(state := READY, out := t.out + [Release])
  }

  /** `|= TW_READ`: the direction bit set. */
  function SetRead(x: int): int
  {
    if x % 2 == 0 then x + 1 else x
  }

  /** Address acknowledged in a read-at: the first byte of the offset, the high one of two. */
  function SendOffset(t: Engine): (r: Engine)
  {
    var b := t.slAtBytes;
    Send(t.(slAtBytes := ToUInt8(b - 1)), if b == 2 then t.slAtMSB else t.slAtLSB, true)
  }

  /** Offset byte acknowledged in a read-at: the low byte if one is left, else a repeated START for the read. */
  function OffsetSent(t: Engine): (r: Engine)
  {
    var b := t.slAtBytes;
    if b == 1 then Send(t.(slAtBytes := 0), t.slAtLSB, true)
    else t.(slAtBytes := ToUInt8(b - 1), slarw := SetRead(t.slarw), out := t.out + [Start])
  }

  /** Address or byte acknowledged in a write: the next byte, or STOP when all are sent. */
  function SendNext(t: Engine): (r: Engine)
  {
    if t.masterIndex < t.masterLength then
      var i := t.masterIndex;
      Send(t.(masterIndex := ToUInt8(i + 1), overrun := t.overrun || i >= BUFFER_LENGTH), At(t.master, i), true)
    else StopBus(t)
  }

  /** A byte received as master: stored at the index, which advances. */
  function Store(t: Engine, d: int): (r: Engine)
  {
    var i := t.masterIndex;
    t.(master := Put(t.master, i, d), masterIndex := ToUInt8(i + 1), overrun := t.overrun || i >= BUFFER_LENGTH)
  }

  /** ACK the next byte if more are expected, NACK it otherwise. */
  function AckIfMore(t: Engine): (r: Engine)
  {
    ReplyWith(t, t.masterIndex < t.masterLength)
  }

  /** The engine's reaction to a status of master mode or an error. */
  function MasterIsr(t: Engine, irq: Irq): (r: Engine)
  {
    var s := irq.status;
    if s == TW_START || s == TW_REP_START then Send(t, t.slarw, true)
    else if s == TW_MT_SLA_ACK then (if t.state == MRXR then SendOffset(t) else SendNext(t))
    else if s == TW_MT_DATA_ACK then (if t.state == MRXR then OffsetSent(t) else SendNext(t))
    else if s == TW_MT_SLA_NACK || s == TW_MT_DATA_NACK then StopBus(t.(error := s))
    else if s == TW_MT_ARB_LOST then ReleaseBus(t.(error := s))
    else if s == TW_MR_DATA_ACK then AckIfMore(Store(t, irq.data))
    else if s == TW_MR_SLA_ACK then AckIfMore(t)
    else if s == TW_MR_DATA_NACK then StopBus(Store(t, irq.data))
    else if s == TW_MR_SLA_NACK then StopBus(t)
    else StopBus(t.(error := TW_BUS_ERROR))
  }

  predicate IsMasterStatus(s: bv8)
  {
    s == TW_START || s == TW_REP_START || s == TW_MT_SLA_ACK || s == TW_MT_DATA_ACK || s == TW_MT_SLA_NACK
    || s == TW_MT_DATA_NACK || s == TW_MT_ARB_LOST || s == TW_MR_DATA_ACK || s == TW_MR_SLA_ACK
    || s == TW_MR_DATA_NACK || s == TW_MR_SLA_NACK || s == TW_BUS_ERROR
  }

  /** Addressed as a slave receiver: the receive buffer starts over. */
  function SlaveAddressed(t: Engine): (r: Engine)
  {
    ReplyWith(t.(state := SRX, rxIndex := 0), true)
  }

  /** A byte received as a slave: kept and acknowledged while the buffer has room, NACKed after. */
  function SlaveByte(t: Engine, d: int): (r: Engine)
  {
    if t.rxIndex < BUFFER_LENGTH then ReplyWith(t.(rx := Put(t.rx, t.rxIndex, d), rxIndex := t.rxIndex + 1), true)
    else ReplyWith(t, false)
  }

  /** STOP after a slave reception: a NUL after the data if there is room, the data delivered, idle again. */
  function SlaveStop(t: Engine): (r: (Engine, seq<int>))
  {
    var rx := if t.rxIndex < BUFFER_LENGTH then Put(t.rx, t.rxIndex, 0) else t.rx;
    (ReplyWith(t.(rx := rx), true).(state := READY), Prefix(rx, t.rxIndex))
  }

  /** A byte to send as a slave: the next of the reply, ACK expected while more remain. */
  function SlaveSend(t: Engine): (r: Engine)
  {
    var i := t.txIndex;
    Send(t.(txIndex := ToUInt8(i + 1), overrun := t.overrun || i >= BUFFER_LENGTH), At(t.tx, i), ToUInt8(i + 1) < t.txLength)
  }

  /** Entering slave transmit mode: the reply emptied, for the handler to fill. */
  function SlaveTransmitting(t: Engine): (r: Engine)
  {
    t.(state := STX, txIndex := 0, txLength := 0)
  }

  /** A single 0 as the reply when the handler supplied none. */
  function DefaultReply(t: Engine): (r: Engine)
  {
    if t.txLength == 0 then t.(txLength := 1, tx := Overwrite(t.tx, [0])) else t
  }

  /** Addressed as a slave transmitter: the handler fills the reply, a single 0 if it supplied none; then its first byte. */
  function SlaveRequested(t: Engine, calls: seq<seq<int>>): (r: Engine)
  {
    SlaveSend(DefaultReply(Handle(SlaveTransmitting(t), calls)))
  }

  /** The engine's reaction to a status of slave mode, with the data a reception delivers. */
  function SlaveIsr(t: Engine, irq: Irq, calls: seq<seq<int>>): (r: (Engine, Option<seq<int>>))
  {
    var s := irq.status;
    if s == TW_SR_SLA_ACK || s == TW_SR_GCALL_ACK || s == TW_SR_ARB_LOST_SLA_ACK || s == TW_SR_ARB_LOST_GCALL_ACK then
      (SlaveAddressed(t), None)
    else if s == TW_SR_DATA_ACK || s == TW_SR_GCALL_DATA_ACK then (SlaveByte(t, irq.data), None)
    else if s == TW_SR_STOP then var (t1, d) := SlaveStop(t); (t1, Some(d))
    else if s == TW_SR_DATA_NACK || s == TW_SR_GCALL_DATA_NACK then (ReplyWith(t, false), None)
    else if s == TW_ST_SLA_ACK || s == TW_ST_ARB_LOST_SLA_ACK then (SlaveRequested(t, calls), None)
    else if s == TW_ST_DATA_ACK then (SlaveSend(t), None)
    else if s == TW_ST_DATA_NACK || s == TW_ST_LAST_DATA then (ReplyWith(t, true).(state := READY), None)
    else (t, None)
  }

  /**
   * `ISR(TWI_vect)`: one interrupt, given the status, the byte in TWDR and the calls the
   * slave transmit handler makes; the result holds the data a slave reception delivers.
   */
  function Isr(t: Engine, irq: Irq, calls: seq<seq<int>>): (r: (Engine, Option<seq<int>>))
  {
    if IsMasterStatus(irq.status) then (MasterIsr(t, irq), None) else SlaveIsr(t, irq, calls)
  }

  /** A run of interrupts during a master transfer, in order. */
  function Run(t: Engine, irqs: seq<Irq>): (r: Engine)
    decreases |irqs|, 1
  {
    if irqs == [] then t else Next(t, irqs)
  }

  /** The first interrupt of a run handled, then the rest. */
  function Next(t: Engine, irqs: seq<Irq>): (r: Engine)
    requires irqs != []
    decreases |irqs|, 0
  {
    Run(Isr(t, irqs[0], []).0, irqs[1..])
  }

  /** A run split anywhere: the first part, then the second from where it left the engine. */
  lemma {:induction false} RunAppend(t: Engine, a: seq<Irq>, b: seq<Irq>)
    ensures Run(t, a + b) == Run(Run(t, a), b)
    decreases |a|
  {
    if a == [] {
      assert a + b == b;
    } else {
      var t1 := Isr(t, a[0], []).0;
      RunCons(t, a[0], a[1..] + b);
      RunCons(t, a[0], a[1..]);
      assert [a[0]] + (a[1..] + b) == a + b;
      assert [a[0]] + a[1..] == a;
      RunAppend(t1, a[1..], b);
    }
  }

  // ----------- Whole transfers -----------

  /** n interrupts of the same status, TWDR holding 0. */
  function Acks(status: bv8, n: nat): (r: seq<Irq>)
    ensures |r| == n
  {
    seq(n, _ => Irq(status, 0))
  }

  lemma AcksCons(status: bv8, n: nat)
    ensures [Irq(status, 0)] + Acks(status, n) == Acks(status, n + 1)
  {
    assert forall k :: 0 <= k < n + 1 ==> ([Irq(status, 0)] + Acks(status, n))[k] == Irq(status, 0);
  }

  /** The bus writes of sending the bytes of a write: each loaded, then the transfer let go on. */
  function Frames(data: seq<int>): seq<Signal>
  {
    if data == [] then [] else [Load(data[0]), Reply(true)] + Frames(data[1..])
  }

  /** The replies of a master reading n bytes: ACK all but the last, which is NACKed. */
  function AckRun(n: nat): (r: seq<Signal>)
    ensures |r| == n
  {
    seq(n, k => Reply(k < n - 1))
  }

  predicate Bytes(bs: seq<int>)
  {
    forall k :: 0 <= k < |bs| ==> IsUInt8(bs[k])
  }

  /** A device sending the bytes bs: the master's ACK after each but the last, NACK after the last. */
  function DataIn(bs: seq<int>): (r: seq<Irq>)
    ensures |r| == |bs|
  {
    seq(|bs|, k requires 0 <= k < |bs| => Irq(if k < |bs| - 1 then TW_MR_DATA_ACK else TW_MR_DATA_NACK, bs[k]))
  }

  /** One interrupt, then the rest. */
  lemma RunCons(t: Engine, irq: Irq, rest: seq<Irq>)
    ensures Run(t, [irq] + rest) == Run(Isr(t, irq, []).0, rest)
  {
    var irqs := [irq] + rest;
    assert Run(t, irqs) == Next(t, irqs);
    assert irqs[0] == irq && irqs[1..] == rest;
  }

  /** START or repeated START: the address byte goes out, whatever the phase. */
  lemma RunStart(t: Engine, s: bv8, rest: seq<Irq>)
    requires s == TW_START || s == TW_REP_START
    ensures Run(t, [Irq(s, 0)] + rest) == Run(Send(t, t.slarw, true), rest)
  {
    RunCons(t, Irq(s, 0), rest);
    assert Isr(t, Irq(s, 0), []).0 == Send(t, t.slarw, true);
  }

  /** An acknowledged address or byte in a master write: the next byte or STOP, as for any such status. */
  lemma RunSendNext(t: Engine, s: bv8, rest: seq<Irq>)
    requires t.state == MTX && (s == TW_MT_SLA_ACK || s == TW_MT_DATA_ACK)
    ensures Run(t, [Irq(s, 0)] + rest) == Run(SendNext(t), rest)
  {
    RunCons(t, Irq(s, 0), rest);
    assert Isr(t, Irq(s, 0), []).0 == SendNext(t);
  }

  /** The acknowledged address of a read-at: the first offset byte goes out. */
  lemma RunOffset(t: Engine, rest: seq<Irq>)
    requires t.state == MRXR
    ensures Run(t, [Irq(TW_MT_SLA_ACK, 0)] + rest) == Run(SendOffset(t), rest)
  {
    RunCons(t, Irq(TW_MT_SLA_ACK, 0), rest);
    assert Isr(t, Irq(TW_MT_SLA_ACK, 0), []).0 == SendOffset(t);
  }

  /** An acknowledged offset byte of a read-at: the low byte or a repeated START. */
  lemma RunOffsetSent(t: Engine, rest: seq<Irq>)
    requires t.state == MRXR
    ensures Run(t, [Irq(TW_MT_DATA_ACK, 0)] + rest) == Run(OffsetSent(t), rest)
  {
    RunCons(t, Irq(TW_MT_DATA_ACK, 0), rest);
    assert Isr(t, Irq(TW_MT_DATA_ACK, 0), []).0 == OffsetSent(t);
  }

  /** The acknowledged address of a master read: ACK or NACK for the first byte. */
  lemma RunReadAddressed(t: Engine, rest: seq<Irq>)
    ensures Run(t, [Irq(TW_MR_SLA_ACK, 0)] + rest) == Run(ReplyWith(t, t.masterIndex < t.masterLength), rest)
  {
    RunCons(t, Irq(TW_MR_SLA_ACK, 0), rest);
    assert Isr(t, Irq(TW_MR_SLA_ACK, 0), []).0 == ReplyWith(t, t.masterIndex < t.masterLength);
  }

  /** The statuses of a write whose address and bytes are all acknowledged, in the order the hardware raises them. */
  function WriteIrqs(n: nat): seq<Irq>
  {
    [Irq(TW_START, 0)] + ([Irq(TW_MT_SLA_ACK, 0)] + Acks(TW_MT_DATA_ACK, n))
  }

  /**
   * The data phase of a master write: with every byte acknowledged, one interrupt per
   * byte loads the next one, and the one after the last sends STOP; nothing else changes.
   */
  lemma {:induction false} SendAll(t: Engine, n: nat)
    requires Valid(t) && t.state == MTX && t.masterIndex + n == t.masterLength <= BUFFER_LENGTH
    ensures Run(t, Acks(TW_MT_DATA_ACK, n + 1)) ==
      t.(state := READY, masterIndex := t.masterLength,
         out := t.out + Frames(t.master[t.masterIndex..t.masterLength]) + [Stop])
    decreases n
  {
    var i := t.masterIndex;
    if n == 0 {
      SendLast(t);
      assert t.master[i..t.masterLength] == [];
    } else {
      SendByte(t, n);
      var o := t.out + [Load(t.master[i]), Reply(true)];
      SendAll(t.(masterIndex := i + 1, out := o), n - 1);
      FramesCons(t.master, i, t.masterLength);
      assert o + Frames(t.master[i + 1..t.masterLength]) == t.out + Frames(t.master[i..t.masterLength]);
    }
  }

  /** All bytes sent: the next acknowledgement sends STOP. */
  lemma SendLast(t: Engine)
    requires t.state == MTX && t.masterIndex == t.masterLength
    ensures Run(t, Acks(TW_MT_DATA_ACK, 1)) == t.(state := READY, out := t.out + [Stop])
  {
    AcksCons(TW_MT_DATA_ACK, 0);
    RunSendNext(t, TW_MT_DATA_ACK, []);
    assert Run(StopBus(t), []) == StopBus(t);
  }

  /** A byte left: the next acknowledgement loads it. */
  lemma SendByte(t: Engine, n: nat)
    requires Valid(t) && t.state == MTX && t.masterIndex < t.masterLength <= BUFFER_LENGTH
    ensures Run(t, Acks(TW_MT_DATA_ACK, n + 1)) ==
      Run(t.(masterIndex := t.masterIndex + 1, out := t.out + [Load(t.master[t.masterIndex]), Reply(true)]), Acks(TW_MT_DATA_ACK, n))
  {
    AcksCons(TW_MT_DATA_ACK, n);
    RunSendNext(t, TW_MT_DATA_ACK, Acks(TW_MT_DATA_ACK, n));
    assert SendNext(t) == t.(masterIndex := t.masterIndex + 1, out := t.out + [Load(t.master[t.masterIndex]), Reply(true)]);
  }

  /** The frames of the bytes from i: the frame of byte i, then those after it. */
  lemma FramesCons(m: seq<int>, i: int, end: int)
    requires 0 <= i < end <= |m|
    ensures Frames(m[i..end]) == [Load(m[i]), Reply(true)] + Frames(m[i + 1..end])
  {
    assert m[i..end][1..] == m[i + 1..end];
  }

  /**
   * `twi_beginWriteTo` followed by the interrupts of a device that acknowledges its address
   * and every byte: START, the address with the write bit, each byte in order, STOP; the
   * engine ends idle with no error, so the write reports OK.
   */
  lemma WriteTransfer(t: Engine, address: int, data: seq<int>)
    requires Valid(t) && t.state == READY && IsUInt8(address) && |data| <= BUFFER_LENGTH
    ensures var r := Run(BeginWriteTo(t, address, data).0, WriteIrqs(|data|));
      && r.state == READY && Status(r) == STATUS_OK && r.overrun == t.overrun
      && r.out == t.out + [Start] + [Load(ToUInt8(address * 2)), Reply(true)] + Frames(data) + [Stop]
  {
    var n := |data|;
    var t1 := BeginWriteTo(t, address, data).0;
    BeginWriteToCopies(t, address, data);
    var t2 := Send(t1, t1.slarw, true);
    RunSendNext(t2, TW_MT_SLA_ACK, Acks(TW_MT_DATA_ACK, n));
    RunStart(t1, TW_START, [Irq(TW_MT_SLA_ACK, 0)] + Acks(TW_MT_DATA_ACK, n));
    // the address acknowledgement goes on as a data acknowledgement would
    RunSendNext(t2, TW_MT_DATA_ACK, Acks(TW_MT_DATA_ACK, n));
    AcksCons(TW_MT_DATA_ACK, n);
    SendAll(t2, n);
    assert t2.master[0..n] == data;
  }


  /**
   * The data phase of a master read: a device sending the bytes bs, the master ACKing each
   * but the last, stores them in order from the index; the NACKed last byte ends in STOP
   * without an error.
   */
  lemma {:induction false} ReceiveAll(t: Engine, bs: seq<int>)
    requires Valid(t) && (t.state == MRX || t.state == MRXR) && Bytes(bs) && |bs| >= 1
    requires t.masterIndex + |bs| == t.masterLength + 1 <= BUFFER_LENGTH
    ensures Run(t, DataIn(bs)) ==
      t.(state := READY, masterIndex := t.masterLength + 1,
         master := t.master[..t.masterIndex] + bs + t.master[t.masterLength + 1..],
         out := t.out + AckRun(|bs| - 1) + [Stop])
    decreases |bs|
  {
    var i := t.masterIndex;
    var target := t.(state := READY, masterIndex := t.masterLength + 1,
                     master := t.master[..i] + bs + t.master[t.masterLength + 1..],
                     out := t.out + AckRun(|bs| - 1) + [Stop]);
    if |bs| == 1 {
      ReceiveLast(t, bs);
      assert t.(state := READY, master := t.master[i := bs[0]], masterIndex := i + 1, out := t.out + [Stop]) == target by {
        SpliceLast(t.master, i, bs);
        assert t.out + AckRun(0) + [Stop] == t.out + [Stop];
      }
    } else {
      ReceiveNext(t, bs);
      var t1 := t.(master := t.master[i := bs[0]], masterIndex := i + 1, out := t.out + [Reply(0 < |bs| - 2)]);
      ReceiveAll(t1, bs[1..]);
      assert t1.(state := READY, masterIndex := t1.masterLength + 1,
                 master := t1.master[..t1.masterIndex] + bs[1..] + t1.master[t1.masterLength + 1..],
                 out := t1.out + AckRun(|bs[1..]| - 1) + [Stop]) == target by {
        SpliceNext(t.master, i, bs, t.masterLength + 1);
        ReplyOut(t.out, |bs| - 1);
      }
    }
  }

  /** The last byte of a read: stored, then STOP. */
  lemma ReceiveLast(t: Engine, bs: seq<int>)
    requires Valid(t) && Bytes(bs) && |bs| == 1 && t.masterIndex < BUFFER_LENGTH
    ensures Run(t, DataIn(bs)) ==
      t.(state := READY, master := t.master[t.masterIndex := bs[0]], masterIndex := t.masterIndex + 1, out := t.out + [Stop])
  {
    DataInCons(bs);
    RunReceived(t, TW_MR_DATA_NACK, bs[0], []);
    var t1 := StopBus(Store(t, bs[0]));
    assert Run(t1, []) == t1;
  }

  /** A byte of a read before the last: stored, then ACK for the next unless that is the last. */
  lemma ReceiveNext(t: Engine, bs: seq<int>)
    requires Valid(t) && Bytes(bs) && |bs| >= 2 && t.masterIndex + |bs| == t.masterLength + 1 <= BUFFER_LENGTH
    ensures Run(t, DataIn(bs)) ==
      Run(t.(master := t.master[t.masterIndex := bs[0]], masterIndex := t.masterIndex + 1, out := t.out + [Reply(0 < |bs| - 2)]),
          DataIn(bs[1..]))
  {
    DataInCons(bs);
    assert Bytes(bs[1..]);
    RunReceived(t, TW_MR_DATA_ACK, bs[0], DataIn(bs[1..]));
    assert AckIfMore(Store(t, bs[0])) ==
      t.(master := t.master[t.masterIndex := bs[0]], masterIndex := t.masterIndex + 1, out := t.out + [Reply(0 < |bs| - 2)]);
  }

  /** Storing the last byte at i is splicing it in. */
  lemma SpliceLast(m: seq<int>, i: int, bs: seq<int>)
    requires 0 <= i < |m| && |bs| == 1
    ensures m[..i] + bs + m[i + 1..] == m[i := bs[0]]
  {
  }

  /** Storing the first byte at i, then splicing in the rest after it, is splicing in all of them. */
  lemma SpliceNext(m: seq<int>, i: int, bs: seq<int>, end: int)
    requires 0 <= i && |bs| >= 1 && i + |bs| == end <= |m|
    ensures m[i := bs[0]][..i + 1] + bs[1..] + m[i := bs[0]][end..] == m[..i] + bs + m[end..]
  {
    assert m[i := bs[0]][..i + 1] == m[..i] + [bs[0]];
    assert m[i := bs[0]][end..] == m[end..];
    assert bs == [bs[0]] + bs[1..];
  }

  /** The reply to the first of n bytes, then the replies to the others. */
  lemma ReplyOut(o: seq<Signal>, n: nat)
    requires n >= 1
    ensures o + [Reply(0 < n - 1)] + AckRun(n - 1) + [Stop] == o + AckRun(n) + [Stop]
  {
    assert [Reply(0 < n - 1)] + AckRun(n - 1) == AckRun(n);
  }

  /** The first byte of a read, then the rest. */
  lemma DataInCons(bs: seq<int>)
    requires |bs| >= 1
    ensures |bs| == 1 ==> DataIn(bs) == [Irq(TW_MR_DATA_NACK, bs[0])] + []
    ensures |bs| >= 2 ==> DataIn(bs) == [Irq(TW_MR_DATA_ACK, bs[0])] + DataIn(bs[1..])
  {
    if |bs| >= 2 {
      assert forall k :: 1 <= k < |bs| ==> DataIn(bs)[k] == DataIn(bs[1..])[k - 1];
    }
  }

  /** A byte received as master: stored, then ACK or NACK for the next one, or STOP after the last. */
  lemma RunReceived(t: Engine, s: bv8, d: int, rest: seq<Irq>)
    requires (s == TW_MR_DATA_ACK || s == TW_MR_DATA_NACK)
    ensures Run(t, [Irq(s, d)] + rest) == Run(if s == TW_MR_DATA_ACK then AckIfMore(Store(t, d)) else StopBus(Store(t, d)), rest)
  {
    RunCons(t, Irq(s, d), rest);
    assert Isr(t, Irq(s, d), []).0 == if s == TW_MR_DATA_ACK then AckIfMore(Store(t, d)) else StopBus(Store(t, d));
  }

  /**
   * The statuses of a read of bs whose address was acknowledged, from its START: `TW_START`
   * on a free bus, `TW_REP_START` after the offset phase of a read-at.
   */
  function ReadIrqs(start: bv8, bs: seq<int>): seq<Irq>
  {
    [Irq(start, 0)] + ([Irq(TW_MR_SLA_ACK, 0)] + DataIn(bs))
  }

  /** The address and data phases of a read, from the START that `twi_begin*` or the offset phase issued. */
  lemma AddressRead(t: Engine, start: bv8, bs: seq<int>)
    requires start == TW_START || start == TW_REP_START
    requires Valid(t) && (t.state == MRX || t.state == MRXR) && Bytes(bs) && |bs| >= 1
    requires t.masterIndex == 0 && |bs| == t.masterLength + 1 <= BUFFER_LENGTH
    ensures Run(t, ReadIrqs(start, bs)) ==
      t.(state := READY, masterIndex := |bs|, master := bs + t.master[|bs|..],
         out := t.out + [Load(t.slarw), Reply(true)] + AckRun(|bs|) + [Stop])
  {
    var t2 := Send(t, t.slarw, true);
    RunReadAddressed(t2, DataIn(bs));
    RunStart(t, start, [Irq(TW_MR_SLA_ACK, 0)] + DataIn(bs));
    var t3 := ReplyWith(t2, t2.masterIndex < t2.masterLength);
    ReceiveAll(t3, bs);
    assert t3.(state := READY, masterIndex := t3.masterLength + 1,
               master := t3.master[..t3.masterIndex] + bs + t3.master[t3.masterLength + 1..],
               out := t3.out + AckRun(|bs| - 1) + [Stop]) ==
           t.(state := READY, masterIndex := |bs|, master := bs + t.master[|bs|..],
              out := t.out + [Load(t.slarw), Reply(true)] + AckRun(|bs|) + [Stop]) by {
      assert t3.master[..0] + bs + t3.master[t.masterLength + 1..] == bs + t.master[|bs|..];
      ReplyOut(t.out + [Load(t.slarw), Reply(true)], |bs|);
    }
  }

  /**
   * `twi_beginReadFrom` of n bytes, 1 <= n <= 32, followed by a device that acknowledges its
   * address and sends bs: the master ACKs all bytes but the last, the engine ends idle with
   * no error, and `twi_getDataFromRead` hands back exactly bs.
   */
  lemma ReadTransfer(t: Engine, address: int, bs: seq<int>)
    requires Valid(t) && t.state == READY && IsUInt8(address) && Bytes(bs) && 1 <= |bs| <= BUFFER_LENGTH
    ensures var r := Run(BeginReadFrom(t, address, |bs|).0, ReadIrqs(TW_START, bs));
      && Status(r) == STATUS_OK && r.overrun == t.overrun
      && r.out == t.out + [Start] + [Load(ToUInt8(address * 2 + 1)), Reply(true)] + AckRun(|bs|) + [Stop]
      && GetDataFromRead(r, |bs|) == (|bs|, bs)
  {
    var t1 := BeginReadFrom(t, address, |bs|).0;
    AddressRead(t1, TW_START, bs);
    var r := Run(t1, ReadIrqs(TW_START, bs));
    assert r.master[..|bs|] == bs;
  }

  /** The statuses of a read-at with an acknowledged one-byte offset, then the read of bs. */
  function ReadAtIrqs(bs: seq<int>): seq<Irq>
  {
    [Irq(TW_START, 0)] + ([Irq(TW_MT_SLA_ACK, 0)] + ([Irq(TW_MT_DATA_ACK, 0)] + ReadIrqs(TW_REP_START, bs)))
  }

  /** The statuses of a read-at with an acknowledged two-byte offset, then the read of bs. */
  function ReadAt2Irqs(bs: seq<int>): seq<Irq>
  {
    [Irq(TW_START, 0)] + ([Irq(TW_MT_SLA_ACK, 0)] + ([Irq(TW_MT_DATA_ACK, 0)] + ([Irq(TW_MT_DATA_ACK, 0)] + ReadIrqs(TW_REP_START, bs))))
  }

  /**
   * `twi_beginReadFromAt` followed by a device that acknowledges everything and sends bs:
   * START, the address with the write bit, the offset, a repeated START, the address with the
   * read bit, then the read; the data handed back is exactly bs.
   */
  lemma ReadAtTransfer(t: Engine, address: int, offset: int, bs: seq<int>)
    requires Valid(t) && t.state == READY && IsUInt8(address) && IsUInt8(offset) && Bytes(bs) && 1 <= |bs| <= BUFFER_LENGTH
    ensures var r := Run(BeginReadFromAt(t, address, offset, |bs|).0, ReadAtIrqs(bs));
      && Status(r) == STATUS_OK && r.overrun == t.overrun
      && r.out == t.out + [Start] + [Load(ToUInt8(address * 2)), Reply(true)] + [Load(offset), Reply(true)]
                        + [Start] + [Load(ToUInt8(address * 2) + 1), Reply(true)] + AckRun(|bs|) + [Stop]
      && GetDataFromRead(r, |bs|) == (|bs|, bs)
  {
    var t1 := BeginReadFromAt(t, address, offset, |bs|).0;
    var a := Send(t1, t1.slarw, true);
    var b := SendOffset(a);
    var c := OffsetSent(b);
    AddressRead(c, TW_REP_START, bs);
    RunOffsetSent(b, ReadIrqs(TW_REP_START, bs));
    RunOffset(a, [Irq(TW_MT_DATA_ACK, 0)] + ReadIrqs(TW_REP_START, bs));
    RunStart(t1, TW_START, [Irq(TW_MT_SLA_ACK, 0)] + ([Irq(TW_MT_DATA_ACK, 0)] + ReadIrqs(TW_REP_START, bs)));
    assert c.out == t.out + [Start] + [Load(ToUInt8(address * 2)), Reply(true)] + [Load(offset), Reply(true)] + [Start];
    assert c.slarw == ToUInt8(address * 2) + 1;
    var r := Run(c, ReadIrqs(TW_REP_START, bs));
    assert r.master[..|bs|] == bs;
  }

  /**
   * `twi_beginReadFromAt2` likewise: the offset goes out high byte first, then low byte,
   * before the repeated START; the data handed back is exactly bs.
   */
  lemma ReadAt2Transfer(t: Engine, address: int, offset: int, bs: seq<int>)
    requires Valid(t) && t.state == READY && IsUInt8(address) && IsUInt16(offset) && Bytes(bs) && 1 <= |bs| <= BUFFER_LENGTH
    ensures var r := Run(BeginReadFromAt2(t, address, offset, |bs|).0, ReadAt2Irqs(bs));
      && Status(r) == STATUS_OK && r.overrun == t.overrun
      && r.out == t.out + [Start] + [Load(ToUInt8(address * 2)), Reply(true)] + [Load(offset / 256), Reply(true)]
                        + [Load(offset % 256), Reply(true)] + [Start] + [Load(ToUInt8(address * 2) + 1), Reply(true)]
                        + AckRun(|bs|) + [Stop]
      && GetDataFromRead(r, |bs|) == (|bs|, bs)
  {
    var t1 := BeginReadFromAt2(t, address, offset, |bs|).0;
    var a := Send(t1, t1.slarw, true);
    var b := SendOffset(a);
    var c := OffsetSent(b);
    var d := OffsetSent(c);
    AddressRead(d, TW_REP_START, bs);
    RunOffsetSent(c, ReadIrqs(TW_REP_START, bs));
    RunOffsetSent(b, [Irq(TW_MT_DATA_ACK, 0)] + ReadIrqs(TW_REP_START, bs));
    RunOffset(a, [Irq(TW_MT_DATA_ACK, 0)] + ([Irq(TW_MT_DATA_ACK, 0)] + ReadIrqs(TW_REP_START, bs)));
    RunStart(t1, TW_START, [Irq(TW_MT_SLA_ACK, 0)] + ([Irq(TW_MT_DATA_ACK, 0)] + ([Irq(TW_MT_DATA_ACK, 0)] + ReadIrqs(TW_REP_START, bs))));
    assert d.out == t.out + [Start] + [Load(ToUInt8(address * 2)), Reply(true)] + [Load(offset / 256), Reply(true)]
                          + [Load(offset % 256), Reply(true)] + [Start];
    assert d.slarw == ToUInt8(address * 2) + 1;
    var r := Run(d, ReadIrqs(TW_REP_START, bs));
    assert r.master[..|bs|] == bs;
  }

  /**
   * A device that does not answer its address: a write ends with SLA_NACK recorded, but a
   * read ends with STOP and no error, so its status is OK and it hands back no byte.
   */
  lemma AbsentDevice(t: Engine, address: int, data: seq<int>, length: int)
    requires Valid(t) && t.state == READY && IsUInt8(address) && |data| <= BUFFER_LENGTH && 1 <= length <= BUFFER_LENGTH
    ensures var w := Run(BeginWriteTo(t, address, data).0, [Irq(TW_START, 0), Irq(TW_MT_SLA_NACK, 0)]);
      w.state == READY && Status(w) == STATUS_SLA_NACK
    ensures var r := Run(BeginReadFrom(t, address, length).0, [Irq(TW_START, 0), Irq(TW_MR_SLA_NACK, 0)]);
      && r.state == READY && Status(r) == STATUS_OK && GetDataFromRead(r, length) == (0, [])
  {
    var w1 := BeginWriteTo(t, address, data).0;
    var w2 := Send(w1, w1.slarw, true);
    assert [Irq(TW_START, 0), Irq(TW_MT_SLA_NACK, 0)] == [Irq(TW_START, 0)] + ([Irq(TW_MT_SLA_NACK, 0)] + []);
    RunCons(w1, Irq(TW_START, 0), [Irq(TW_MT_SLA_NACK, 0)] + []);
    RunCons(w2, Irq(TW_MT_SLA_NACK, 0), []);
    assert Isr(w2, Irq(TW_MT_SLA_NACK, 0), []).0 == StopBus(w2.(error := TW_MT_SLA_NACK));
    var r1 := BeginReadFrom(t, address, length).0;
    var r2 := Send(r1, r1.slarw, true);
    assert [Irq(TW_START, 0), Irq(TW_MR_SLA_NACK, 0)] == [Irq(TW_START, 0)] + ([Irq(TW_MR_SLA_NACK, 0)] + []);
    RunCons(r1, Irq(TW_START, 0), [Irq(TW_MR_SLA_NACK, 0)] + []);
    RunCons(r2, Irq(TW_MR_SLA_NACK, 0), []);
    assert Isr(r2, Irq(TW_MR_SLA_NACK, 0), []).0 == StopBus(r2);
  }

  // ----------- Slave transfers -----------

  /** A master writing the bytes bs to this slave, which acknowledges them. */
  function SlaveData(bs: seq<int>): (r: seq<Irq>)
    ensures |r| == |bs|
  {
    seq(|bs|, k requires 0 <= k < |bs| => Irq(TW_SR_DATA_ACK, bs[k]))
  }

  lemma SlaveDataCons(bs: seq<int>)
    requires |bs| >= 1
    ensures SlaveData(bs) == [Irq(TW_SR_DATA_ACK, bs[0])] + SlaveData(bs[1..])
  {
    assert forall k :: 1 <= k < |bs| ==> SlaveData(bs)[k] == SlaveData(bs[1..])[k - 1];
  }

  /** n acknowledgements. */
  function Acked(n: nat): (r: seq<Signal>)
    ensures |r| == n
  {
    seq(n, _ => Reply(true))
  }

  lemma AckedCons(o: seq<Signal>, n: nat)
    requires n >= 1
    ensures o + [Reply(true)] + Acked(n - 1) == o + Acked(n)
  {
    assert [Reply(true)] + Acked(n - 1) == Acked(n);
  }

  /** Bytes received as a slave while the buffer has room: stored in order from the index, each acknowledged. */
  lemma {:induction false} SlaveReceiveAll(t: Engine, bs: seq<int>)
    requires |t.rx| == BUFFER_LENGTH && 0 <= t.rxIndex && t.rxIndex + |bs| <= BUFFER_LENGTH
    ensures Run(t, SlaveData(bs)) ==
      t.(rx := t.rx[..t.rxIndex] + bs + t.rx[t.rxIndex + |bs|..], rxIndex := t.rxIndex + |bs|, out := t.out + Acked(|bs|))
    decreases |bs|
  {
    var i := t.rxIndex;
    if bs == [] {
      assert t.rx[..i] + bs + t.rx[i..] == t.rx;
      assert t.out + Acked(0) == t.out;
    } else {
      SlaveDataCons(bs);
      RunCons(t, Irq(TW_SR_DATA_ACK, bs[0]), SlaveData(bs[1..]));
      var t1 := t.(rx := t.rx[i := bs[0]], rxIndex := i + 1, out := t.out + [Reply(true)]);
      assert Isr(t, Irq(TW_SR_DATA_ACK, bs[0]), []).0 == t1;
      SlaveReceiveAll(t1, bs[1..]);
      SpliceNext(t.rx, i, bs, i + |bs|);
      AckedCons(t.out, |bs|);
    }
  }

  /**
   * A reception as a slave of up to 32 bytes: addressed, every byte acknowledged and
   * stored, and the STOP hands exactly bs to the receive handler and leaves the engine idle.
   */
  lemma SlaveReception(t: Engine, bs: seq<int>)
    requires Valid(t) && |bs| <= BUFFER_LENGTH
    ensures var r := Run(t, [Irq(TW_SR_SLA_ACK, 0)] + SlaveData(bs));
      && r.out == t.out + [Reply(true)] + Acked(|bs|)
      && Isr(r, Irq(TW_SR_STOP, 0), []).1 == Some(bs)
      && Isr(r, Irq(TW_SR_STOP, 0), []).0.state == READY
  {
    var t1 := t.(state := SRX, rxIndex := 0, out := t.out + [Reply(true)]);
    RunCons(t, Irq(TW_SR_SLA_ACK, 0), SlaveData(bs));
    assert Isr(t, Irq(TW_SR_SLA_ACK, 0), []).0 == t1;
    SlaveReceiveAll(t1, bs);
    var r := Run(t1, SlaveData(bs));
    SlaveStopDelivers(r);
    assert r.rx[..|bs|] == bs;
  }

  /** A STOP after a slave reception hands the bytes received so far to the handler. */
  lemma SlaveStopDelivers(r: Engine)
    requires |r.rx| == BUFFER_LENGTH && 0 <= r.rxIndex <= BUFFER_LENGTH
    ensures Isr(r, Irq(TW_SR_STOP, 0), []).1 == Some(r.rx[..r.rxIndex])
    ensures Isr(r, Irq(TW_SR_STOP, 0), []).0.state == READY
  {
    assert Isr(r, Irq(TW_SR_STOP, 0), []) == (SlaveStop(r).0, Some(SlaveStop(r).1));
  }

  /** With the receive buffer full, a further byte is neither stored nor acknowledged. */
  lemma SlaveBufferFull(t: Engine, d: int)
    requires Valid(t) && t.rxIndex == BUFFER_LENGTH
    ensures Isr(t, Irq(TW_SR_DATA_ACK, d), []).0 == t.(out := t.out + [Reply(false)])
  {
  }

  /** The reply a slave transmitter sends: the last call that fit, or a single 0 when there was none or it was empty. */
  function ReplyData(calls: seq<seq<int>>): (r: seq<int>)
    ensures 1 <= |r| <= BUFFER_LENGTH
  {
    match LastFit(calls)
    case Some(d) => if d == [] then [0] else d
    case None => [0]
  }

  /** The bus writes of a slave sending r: each byte loaded, an ACK expected after all but the last. */
  function TxFrames(r: seq<int>): seq<Signal>
  {
    if r == [] then [] else [Load(r[0]), Reply(|r| > 1)] + TxFrames(r[1..])
  }

  /** The bytes of the reply from the index, one per acknowledgement. */
  lemma {:induction false} SlaveSendAll(t: Engine, n: nat)
    requires |t.tx| == BUFFER_LENGTH && 0 <= t.txIndex && t.txIndex + n == t.txLength <= BUFFER_LENGTH
    ensures Run(t, Acks(TW_ST_DATA_ACK, n)) ==
      t.(txIndex := t.txLength, out := t.out + TxFrames(t.tx[t.txIndex..t.txLength]))
    decreases n
  {
    var i := t.txIndex;
    if n == 0 {
      assert t.tx[i..t.txLength] == [];
      assert t.out + [] == t.out;
    } else {
      var o := t.out + [Load(t.tx[i]), Reply(i + 1 < t.txLength)];
      SlaveSendByte(t, n - 1);
      SlaveSendAll(t.(txIndex := i + 1, out := o), n - 1);
      TxFramesCons(t.tx, i, t.txLength);
      assert o + TxFrames(t.tx[i + 1..t.txLength]) == t.out + TxFrames(t.tx[i..t.txLength]);
    }
  }

  /** One acknowledgement: the byte at the index is loaded. */
  lemma SlaveSendByte(t: Engine, n: nat)
    requires |t.tx| == BUFFER_LENGTH && 0 <= t.txIndex < t.txLength <= BUFFER_LENGTH
    ensures Run(t, Acks(TW_ST_DATA_ACK, n + 1)) ==
      Run(t.(txIndex := t.txIndex + 1, out := t.out + [Load(t.tx[t.txIndex]), Reply(t.txIndex + 1 < t.txLength)]),
          Acks(TW_ST_DATA_ACK, n))
  {
    AcksCons(TW_ST_DATA_ACK, n);
    RunCons(t, Irq(TW_ST_DATA_ACK, 0), Acks(TW_ST_DATA_ACK, n));
    assert Isr(t, Irq(TW_ST_DATA_ACK, 0), []).0 ==
      t.(txIndex := t.txIndex + 1, out := t.out + [Load(t.tx[t.txIndex]), Reply(t.txIndex + 1 < t.txLength)]);
  }

  lemma TxFramesCons(m: seq<int>, i: int, end: int)
    requires 0 <= i < end <= |m|
    ensures TxFrames(m[i..end]) == [Load(m[i]), Reply(i + 1 < end)] + TxFrames(m[i + 1..end])
  {
    assert m[i..end][1..] == m[i + 1..end];
  }

  /** Addressed for reading: the handler's reply in the buffer, and its first byte sent. */
  lemma SlaveRequestedReply(t: Engine, calls: seq<seq<int>>)
    requires Valid(t)
    ensures var reply := ReplyData(calls); var r := Isr(t, Irq(TW_ST_SLA_ACK, 0), calls).0;
      && r == t.(state := STX, txIndex := 1, txLength := |reply|, tx := r.tx, out := t.out + [Load(reply[0]), Reply(1 < |reply|)])
      && |r.tx| == BUFFER_LENGTH && r.tx[..|reply|] == reply
  {
    var reply := ReplyData(calls);
    var t0 := t.(state := STX, txIndex := 0, txLength := 0);
    LastTransmitWins(t0, calls);
    var t1 := Handle(t0, calls);
    var t2 := if t1.txLength == 0 then t1.(txLength := 1, tx := Overwrite(t1.tx, [0])) else t1;
    assert t2 == t0.(txLength := |reply|, tx := t2.tx) && t2.tx[..|reply|] == reply;
    assert Isr(t, Irq(TW_ST_SLA_ACK, 0), calls).0 == SlaveSend(t2);
  }

  /**
   * Addressed for reading, the slave sends the reply its transmit handler left, byte by
   * byte, expecting an ACK after all but the last.
   */
  lemma SlaveTransmission(t: Engine, calls: seq<seq<int>>)
    requires Valid(t)
    ensures var reply := ReplyData(calls);
      var r := Run(Isr(t, Irq(TW_ST_SLA_ACK, 0), calls).0, Acks(TW_ST_DATA_ACK, |reply| - 1));
      r.out == t.out + TxFrames(reply) && r.state == STX
  {
    var reply := ReplyData(calls);
    SlaveRequestedReply(t, calls);
    var r1 := Isr(t, Irq(TW_ST_SLA_ACK, 0), calls).0;
    SlaveSendAll(r1, |reply| - 1);
    assert r1.tx[1..|reply|] == reply[1..];
    assert TxFrames(reply) == [Load(reply[0]), Reply(1 < |reply|)] + TxFrames(reply[1..]);
  }

  // ----------- The engine's invariant -----------

  /** A master interrupt keeps the globals within their types. */
  lemma MasterIsrKeepsValid(t: Engine, irq: Irq)
    requires Valid(t)
    ensures Valid(MasterIsr(t, irq))
  {
    var s := irq.status;
    if s == TW_MR_DATA_ACK || s == TW_MR_DATA_NACK {
      MasterReceiveKeepsValid(t, irq);
    } else if s == TW_MT_SLA_ACK || s == TW_MT_DATA_ACK {
      MasterSendKeepsValid(t, irq);
    } else {
      MasterOtherKeepsValid(t, irq);
    }
  }

  lemma MasterReceiveKeepsValid(t: Engine, irq: Irq)
    requires Valid(t) && (irq.status == TW_MR_DATA_ACK || irq.status == TW_MR_DATA_NACK)
    ensures Valid(MasterIsr(t, irq))
  {
    assert Valid(Store(t, irq.data));
  }

  lemma MasterSendKeepsValid(t: Engine, irq: Irq)
    requires Valid(t) && (irq.status == TW_MT_SLA_ACK || irq.status == TW_MT_DATA_ACK)
    ensures Valid(MasterIsr(t, irq))
  {
  }

  lemma MasterOtherKeepsValid(t: Engine, irq: Irq)
    requires Valid(t) && irq.status != TW_MR_DATA_ACK && irq.status != TW_MR_DATA_NACK
    requires irq.status != TW_MT_SLA_ACK && irq.status != TW_MT_DATA_ACK
    ensures Valid(MasterIsr(t, irq))
  {
  }

  /** A slave interrupt keeps them too, whatever the transmit handler supplies. */
  lemma SlaveIsrKeepsValid(t: Engine, irq: Irq, calls: seq<seq<int>>)
    requires Valid(t)
    ensures Valid(SlaveIsr(t, irq, calls).0)
  {
    var s := irq.status;
    if s == TW_ST_SLA_ACK || s == TW_ST_ARB_LOST_SLA_ACK {
      SlaveRequestedKeepsValid(t, irq, calls);
    } else {
      SlaveReplyKeepsValid(t, irq, calls);
    }
  }

  lemma SlaveRequestedKeepsValid(t: Engine, irq: Irq, calls: seq<seq<int>>)
    requires Valid(t) && (irq.status == TW_ST_SLA_ACK || irq.status == TW_ST_ARB_LOST_SLA_ACK)
    ensures Valid(SlaveIsr(t, irq, calls).0)
  {
    var t0 := t.(state := STX, txIndex := 0, txLength := 0);
    LastTransmitWins(t0, calls);
    var t1 := Handle(t0, calls);
    var t2 := if t1.txLength == 0 then t1.(txLength := 1, tx := Overwrite(t1.tx, [0])) else t1;
    assert Valid(t2);
    assert SlaveIsr(t, irq, calls).0 == SlaveSend(t2);
  }

  lemma SlaveReplyKeepsValid(t: Engine, irq: Irq, calls: seq<seq<int>>)
    requires Valid(t) && irq.status != TW_ST_SLA_ACK && irq.status != TW_ST_ARB_LOST_SLA_ACK
    ensures Valid(SlaveIsr(t, irq, calls).0)
  {
  }

  /** Every interrupt keeps the globals within their types. */
  lemma IsrKeepsValid(t: Engine, irq: Irq, calls: seq<seq<int>>)
    requires Valid(t)
    ensures Valid(Isr(t, irq, calls).0)
  {
    if IsMasterStatus(irq.status) {
      MasterIsrKeepsValid(t, irq);
    } else {
      SlaveIsrKeepsValid(t, irq, calls);
    }
  }

  /** And so does any run of them. */
  lemma {:induction false} RunKeepsValid(t: Engine, irqs: seq<Irq>)
    requires Valid(t)
    ensures Valid(Run(t, irqs))
    decreases |irqs|
  {
    if irqs != [] {
      IsrKeepsValid(t, irqs[0], []);
      RunCons(t, irqs[0], irqs[1..]);
      assert [irqs[0]] + irqs[1..] == irqs;
      RunKeepsValid(Isr(t, irqs[0], []).0, irqs[1..]);
    }
  }

  // ----------- Blocking calls -----------

  /**
   * The end of a blocking read: once the engine is idle again, what `twi_getDataFromRead`
   * hands back; None while the wait for it would still spin.
   */
  function Collect(t: Engine, length: int): (r: Option<(Engine, int, seq<int>)>)
    ensures r.Some? <==> t.state == READY
    ensures r.Some? ==> r.value.0 == t
  {
    if t.state != READY then None
    else var (n, data) := GetDataFromRead(t, length); Some((t, n, data))
  }

  /**
   * `twi_readFrom`, from the moment its first wait finds the engine idle: the read started,
   * the interrupts the hardware raises, then the bytes read; 0 bytes when the start is refused.
   */
  function ReadFrom(t: Engine, address: int, length: int, irqs: seq<Irq>): (r: Option<(Engine, int, seq<int>)>)
    requires Valid(t) && t.state == READY && IsUInt8(address) && IsUInt8(length)
  {
    var (t1, rc) := BeginReadFrom(t, address, length);
    if rc != STATUS_OK then Some((t1, 0, [])) else Collect(Run(t1, irqs), length)
  }

  /** `twi_readFromAt`: likewise, with a one-byte offset written first. */
  function ReadFromAt(t: Engine, address: int, offset: int, length: int, irqs: seq<Irq>): (r: Option<(Engine, int, seq<int>)>)
    requires Valid(t) && t.state == READY && IsUInt8(address) && IsUInt8(offset) && IsUInt8(length)
  {
    var (t1, rc) := BeginReadFromAt(t, address, offset, length);
    if rc != STATUS_OK then Some((t1, 0, [])) else Collect(Run(t1, irqs), length)
  }

  /**
   * `twi_readFromAt2` as written: it returns 0 at once, touching nothing, unless the last
   * transfer recorded no error.
   */
  function ReadFromAt2(t: Engine, address: int, offset: int, length: int, irqs: seq<Irq>): (r: Option<(Engine, int, seq<int>)>)
    requires Valid(t) && t.state == READY && IsUInt8(address) && IsUInt16(offset) && IsUInt8(length)
  {
    if t.error != NO_ERROR then Some((t, 0, []))
    else ReadFromAt2Intended(t, address, offset, length, irqs)
  }

  /** `twi_readFromAt2` without the error check, as its siblings are. */
  function ReadFromAt2Intended(t: Engine, address: int, offset: int, length: int, irqs: seq<Irq>): (r: Option<(Engine, int, seq<int>)>)
    requires Valid(t) && t.state == READY && IsUInt8(address) && IsUInt16(offset) && IsUInt8(length)
  {
    var (t1, rc) := BeginReadFromAt2(t, address, offset, length);
    if rc != STATUS_OK then Some((t1, 0, [])) else Collect(Run(t1, irqs), length)
  }

  /** `twi_writeTo`: the refusal of the start, or the status the finished write recorded. */
  function WriteTo(t: Engine, address: int, data: seq<int>, irqs: seq<Irq>): (r: Option<(Engine, int)>)
    requires Valid(t) && t.state == READY && IsUInt8(address) && IsUInt8(|data|)
  {
    var (t1, rc) := BeginWriteTo(t, address, data);
    if rc != STATUS_OK then Some((t1, rc))
    else var t2 := Run(t1, irqs); if t2.state != READY then None else Some((t2, Error2Status(t2.error)))
  }

  /**
   * A read started without waiting, once a device has sent bs, leaves exactly bs for a
   * caller that collects it into a 32-byte buffer.
   */
  lemma KickoffReadDelivers(t: Engine, address: int, bs: seq<int>)
    requires Valid(t) && t.state == READY && IsUInt8(address) && Bytes(bs) && 1 <= |bs| <= BUFFER_LENGTH
    ensures var r := Run(BeginReadFrom(t, address, |bs|).0, ReadIrqs(TW_START, bs));
      Status(r) == STATUS_OK && GetDataFromRead(r, BUFFER_LENGTH) == (|bs|, bs)
  {
    ReadTransfer(t, address, bs);
  }

  /** A blocking read of 1 to 32 bytes from a device that sends bs returns exactly bs. */
  lemma ReadFromReturnsBytes(t: Engine, address: int, bs: seq<int>)
    requires Valid(t) && t.state == READY && IsUInt8(address) && Bytes(bs) && 1 <= |bs| <= BUFFER_LENGTH
    ensures var r := ReadFrom(t, address, |bs|, ReadIrqs(TW_START, bs)); r.Some? && r.value.1 == |bs| && r.value.2 == bs
  {
    ReadTransfer(t, address, bs);
  }

  /** Likewise for a read at a one-byte offset. */
  lemma ReadFromAtReturnsBytes(t: Engine, address: int, offset: int, bs: seq<int>)
    requires Valid(t) && t.state == READY && IsUInt8(address) && IsUInt8(offset) && Bytes(bs) && 1 <= |bs| <= BUFFER_LENGTH
    ensures var r := ReadFromAt(t, address, offset, |bs|, ReadAtIrqs(bs)); r.Some? && r.value.1 == |bs| && r.value.2 == bs
  {
    ReadAtTransfer(t, address, offset, bs);
  }

  /** A blocking write that the device acknowledges throughout reports OK. */
  lemma WriteToSucceeds(t: Engine, address: int, data: seq<int>)
    requires Valid(t) && t.state == READY && IsUInt8(address) && |data| <= BUFFER_LENGTH
    ensures WriteTo(t, address, data, WriteIrqs(|data|)).Some?
    ensures WriteTo(t, address, data, WriteIrqs(|data|)).value.1 == STATUS_OK
  {
    WriteTransfer(t, address, data);
  }

  /**
   * `twi_readFromAt2` is locked out from start-up on, since `twi_error` starts at 0: it
   * returns 0 bytes without a single bus condition, whatever the device would send.
   */
  lemma ReadFromAt2LockedOut(address: int, offset: int, bs: seq<int>)
    requires IsUInt8(address) && IsUInt16(offset) && Bytes(bs) && 1 <= |bs| <= BUFFER_LENGTH
    ensures ReadFromAt2(Init(), address, offset, |bs|, ReadAt2Irqs(bs)) == Some((Init(), 0, []))
  {
  }

  /** So is it after any failed transfer, for instance a write whose address nobody acknowledged. */
  lemma ReadFromAt2AfterFailure(t: Engine, address: int, offset: int, length: int, irqs: seq<Irq>)
    requires Valid(t) && t.state == READY && IsUInt8(address) && IsUInt16(offset) && IsUInt8(length)
    requires Status(t) != STATUS_OK
    ensures ReadFromAt2(t, address, offset, length, irqs) == Some((t, 0, []))
  {
  }

  /** Without the check, a read at a two-byte offset from a device that sends bs returns exactly bs, from start-up on. */
  lemma ReadFromAt2IntendedReturnsBytes(t: Engine, address: int, offset: int, bs: seq<int>)
    requires Valid(t) && t.state == READY && IsUInt8(address) && IsUInt16(offset) && Bytes(bs) && 1 <= |bs| <= BUFFER_LENGTH
    ensures var r := ReadFromAt2Intended(t, address, offset, |bs|, ReadAt2Irqs(bs)); r.Some? && r.value.1 == |bs| && r.value.2 == bs
  {
    ReadAt2Transfer(t, address, offset, bs);
  }

  // ----------- A read of no bytes -----------

  /**
   * `twi_beginReadFrom` with length 0 is accepted, and `length - 1` wraps to 255: the master
   * ACKs every byte the device sends, and the one stored at index 32 falls outside the buffer.
   */
  lemma ZeroLengthRead(t: Engine, address: int, d: int)
    requires Valid(t) && t.state == READY && IsUInt8(address)
    ensures var (t1, rc) := BeginReadFrom(t, address, 0);
      && rc == STATUS_OK && t1.masterLength == 255
      && Isr(Send(t1, t1.slarw, true), Irq(TW_MR_SLA_ACK, 0), []).0.out == t1.out + [Load(t1.slarw), Reply(true), Reply(true)]
      && Store(t1.(masterIndex := BUFFER_LENGTH), d).overrun
  {
  }

  /** `twi_beginReadFrom` refusing a length of 0 as it refuses one over 32. */
  function BeginReadFromIntended(t: Engine, address: int, length: int): (r: (Engine, int))
    requires Valid(t) && IsUInt8(address) && IsUInt8(length)
  {
    if length == 0 then (t, STATUS_BAD_ARGS) else BeginReadFrom(t, address, length)
  }

  /** Every read it accepts has 1 to 32 bytes, so a device sending them leaves no access outside the buffer. */
  lemma BeginReadFromIntendedFits(t: Engine, address: int, bs: seq<int>)
    requires Valid(t) && t.state == READY && IsUInt8(address) && Bytes(bs) && IsUInt8(|bs|)
    ensures BeginReadFromIntended(t, address, |bs|).1 == STATUS_OK <==> 1 <= |bs| <= BUFFER_LENGTH
    ensures BeginReadFromIntended(t, address, |bs|).1 == STATUS_OK ==>
      Run(BeginReadFromIntended(t, address, |bs|).0, ReadIrqs(TW_START, bs)).overrun == t.overrun
  {
    if 1 <= |bs| <= BUFFER_LENGTH {
      ReadTransfer(t, address, bs);
    }
  }

  // ----------- Bit rate -----------

  /** The prescaler the TWPS0 and TWPS1 bits of TWSR select: 1, 4, 16 or 64. */
  function Prescale(twsr: bv8): (p: int)
    ensures p == 1 || p == 4 || p == 16 || p == 64
  {
    (if twsr & 1 != 0 then 4 else 1) * (if twsr & 2 != 0 then 16 else 1)
  }

  /** The SCL frequency a setting gives: F_CPU / (16 + 2 * TWBR * prescaler). */
  function BitRate(twbr: int, twsr: bv8): int
    requires IsUInt8(twbr)
  {
    F_CPU / (16 + twbr * 2 * Prescale(twsr))
  }

  /** The TWBR `twi_setSpeed` computes: `(F_CPU / bps - 16) / 2` in `unsigned long`, stored in the 8-bit register. */
  function TwbrFor(bps: int): (r: int)
    requires 0 < bps
    ensures IsUInt8(r)
  {
    ToUInt8(ToUInt32(F_CPU / bps - 16) / 2)
  }

  /**
   * `twi_setSpeed`: the new TWBR, TWSR with the prescaler bits cleared, and the rate the
   * old setting gave.
   */
  function SetSpeed(twbr: int, twsr: bv8, bps: int): (r: (int, bv8, int))
    requires IsUInt8(twbr) && 0 < bps
    ensures IsUInt8(r.0) && Prescale(r.1) == 1 && r.1 & 0xfc == twsr & 0xfc
    ensures r.2 == BitRate(twbr, twsr)
  {
    (TwbrFor(bps), twsr & 0xfc, BitRate(twbr, twsr))
  }

  /** The rates the library names: 100 kHz (its default) and 400 kHz. */
  lemma StandardSpeeds()
    ensures TwbrFor(TWI_FREQ) == 72 && TwbrFor(400_000) == 12
    ensures BitRate(72, 0) == 100_000 && BitRate(12, 0) == 400_000
  {
  }

  /**
   * Between 30.4 kHz and 1 MHz the setting is as close as the prescaler 1 allows: the
   * divisor is within 2 of F_CPU / bps, and the rate it gives, which the next call
   * reports, is never below the one asked for.
   */
  lemma SpeedRoundTrip(twbr: int, twsr: bv8, bps: int)
    requires IsUInt8(twbr) && 30_400 <= bps <= 1_000_000
    ensures var (b, s, _) := SetSpeed(twbr, twsr, bps);
      && F_CPU / bps - 2 < 16 + 2 * b <= F_CPU / bps
      && bps <= BitRate(b, s)
  {
    QuotientBounds(F_CPU, bps, 527);
    QuotientBounds(F_CPU, bps, 16);
    var b := TwbrFor(bps);
    assert b == (F_CPU / bps - 16) / 2;
    DivisorBounds(F_CPU, bps, 1, b);
  }

  /**
   * Below about 30 kHz the quotient overflows the 8-bit TWBR: `twi_setSpeed(10000)` stores
   * 24, and the bus runs at 250 kHz.
   */
  lemma SlowSpeedWraps(twbr: int, twsr: bv8)
    requires IsUInt8(twbr)
    ensures var (b, s, _) := SetSpeed(twbr, twsr, 10_000); b == 24 && BitRate(b, s) == 250_000
  {
  }

  /** The smallest prescaler setting under which `d / (2 * prescaler)` fits in TWBR. */
  function PrescalerFor(d: int): (ps: bv8)
    requires 0 <= d <= 32_767
    ensures ps <= 3 && IsUInt8(d / (2 * Prescale(ps)))
  {
    if d / 2 < 256 then 0 else if d / 8 < 256 then 1 else if d / 32 < 256 then 2 else 3
  }

  /** Setting the prescaler bits over cleared ones selects their prescaler. */
  lemma PrescaleBits(twsr: bv8, ps: bv8)
    requires ps <= 3
    ensures Prescale((twsr & 0xfc) | ps) == Prescale(ps)
  {
  }

  /** TWBR and the prescaler bits for a rate: the smallest prescaler whose TWBR fits in 8 bits. */
  function SetSpeedIntended(twbr: int, twsr: bv8, bps: int): (r: (int, bv8, int))
    requires IsUInt8(twbr) && 489 <= bps <= 1_000_000
    ensures IsUInt8(r.0) && r.1 & 0xfc == twsr & 0xfc
    ensures r.2 == BitRate(twbr, twsr)
  {
    QuotientRange(bps);
    var d := F_CPU / bps - 16;
    var ps := PrescalerFor(d);
    (d / (2 * Prescale(ps)), (twsr & 0xfc) | ps, BitRate(twbr, twsr))
  }

  /**
   * With the prescaler chosen so, every rate from 489 Hz to 1 MHz is met as closely as
   * that prescaler allows and never exceeded.
   */
  lemma SetSpeedIntendedRoundTrip(twbr: int, twsr: bv8, bps: int)
    requires IsUInt8(twbr) && 489 <= bps <= 1_000_000
    ensures var (b, s, _) := SetSpeedIntended(twbr, twsr, bps);
      && F_CPU / bps - 2 * Prescale(s) < 16 + b * 2 * Prescale(s) <= F_CPU / bps
      && bps <= BitRate(b, s)
  {
    QuotientRange(bps);
    var d := F_CPU / bps - 16;
    var ps := PrescalerFor(d);
    assert SetSpeedIntended(twbr, twsr, bps) == (d / (2 * Prescale(ps)), (twsr & 0xfc) | ps, BitRate(twbr, twsr));
    PrescaleBits(twsr, ps);
    DivisorBounds(F_CPU, bps, Prescale(ps), d / (2 * Prescale(ps)));
  }

  /** F_CPU / bps for the rates a prescaler can reach. */
  lemma QuotientRange(bps: int)
    requires 489 <= bps <= 1_000_000
    ensures 16 <= F_CPU / bps <= 32_783
  {
    QuotientBounds(F_CPU, bps, 16);
    QuotientBounds(F_CPU, bps, 32_783);
  }

  /** TWBR chosen as (F / bps - 16) / (2p) makes the divisor at most F / bps and more than F / bps - 2p, so the rate is at least bps. */
  lemma DivisorBounds(f: nat, bps: nat, p: nat, b: nat)
    requires 0 < bps && 0 < p && 16 <= f / bps && b == (f / bps - 16) / (2 * p)
    ensures f / bps - 2 * p < 16 + b * 2 * p <= f / bps
    ensures bps <= f / (16 + b * 2 * p)
  {
    var d := f / bps;
    DivBounds(d - 16, 2 * p);
    assert b * 2 * p == b * (2 * p);
    var x := 16 + b * 2 * p;
    DivBounds(f, bps);
    MulLe(x, d, bps);
    QuotientBounds(f, x, bps);
  }

  /** At 10 kHz it picks the prescaler 4 and TWBR 198, the setting TWIMaster names TWI_10K, which runs at exactly 10 kHz. */
  lemma TenKilohertz(twbr: int)
    requires IsUInt8(twbr)
    ensures var (b, s, _) := SetSpeedIntended(twbr, 0, 10_000);
      b == 198 && s == 1 && BitRate(b, s) == 10_000
  {
  }
}
