// `extended_twi.c` as the code that runs: its static globals are the fields of
// a `Driver`, its three heap buffers are arrays, and each function is a method
// proved to change the globals as the matching step of the state machine in
// ExtendedTwiState does. The TWI registers TWAR, TWBR and TWSR, which only the
// address and speed settings touch, are a `Registers` object of their own.
module ExtendedTwi {
  import opened CInt
  import opened Avr
  import S = ExtendedTwiState

  /** The TWI registers that hold the slave address and the bit rate. */
  class Registers {
    var twar: int
    var twbr: int
    var twsr: bv8

    /** The registers as the hardware holds them before the library sets them. */
    constructor (twar: int, twbr: int, twsr: bv8)
      requires IsUInt8(twar) && IsUInt8(twbr)
      ensures this.twar == twar && this.twbr == twbr && this.twsr == twsr
    {
      this.twar, this.twbr, this.twsr := twar, twbr, twsr;
    }

    predicate Valid()
      reads this
    {
      IsUInt8(twar) && IsUInt8(twbr)
    }

    /**
     * `twi_setAddress`: the 7-bit slave address in the upper bits of TWAR, and the
     * general-call enable bit TWGCE, bit 0, cleared.
     */
    method SetAddress(address: int)
      requires Valid() && IsUInt8(address)
      modifies this
      ensures Valid() && twar == ToUInt8(address * 2)
      ensures twar / 2 == address % 128 && twar % 2 == 0
      ensures twbr == old(twbr) && twsr == old(twsr)
    {
      twar := ToUInt8(address * 2);
    }

    /**
     * `twi_setSpeed`: the rate the old setting gave, computed first; then both prescaler
     * bits cleared and TWBR set for `bps`.
     */
    method SetSpeed(bps: int) returns (former: int)
      requires Valid() && 0 < bps && IsUInt32(bps)
      modifies this
      ensures Valid() && (twbr, twsr, former) == S.SetSpeed(old(twbr), old(twsr), bps)
      ensures twar == old(twar)
    {
      var prescale := 1;
      if twsr & 1 != 0 { prescale := prescale * 4; }
      if twsr & 2 != 0 { prescale := prescale * 16; }
      former := S.F_CPU / (16 + twbr * 2 * prescale);
      twsr := twsr & 0xfe;
      twsr := twsr & 0xfd;
      twbr := ToUInt8(ToUInt32(S.F_CPU / bps - 16) / 2);
    }
  }

  /** The globals of `extended_twi.c`. */
  class Driver {
    var state: int
    var slarw: int
    var slAtBytes: int
    var slAtLSB: int
    var slAtMSB: int
    const masterBuffer: array<int>
    var masterIndex: int
    var masterLength: int
    const txBuffer: array<int>
    var txIndex: int
    var txLength: int
    const rxBuffer: array<int>
    var rxIndex: int
    var error: bv8
    var overrun: bool
    var out: seq<S.Signal>
    const regs: Registers

    /** The globals as a state of the engine. */
    function Snap(): S.Engine
      reads this, masterBuffer, txBuffer, rxBuffer
    {
      S.Engine(state, slarw, slAtBytes, slAtLSB, slAtMSB, masterBuffer[..], masterIndex, masterLength,
               txBuffer[..], txIndex, txLength, rxBuffer[..], rxIndex, error, overrun, out)
    }

    /** Three separate buffers, and globals of their C types. */
    predicate Valid()
      reads this, masterBuffer, txBuffer, rxBuffer
    {
      masterBuffer != txBuffer && masterBuffer != rxBuffer && txBuffer != rxBuffer && S.Valid(Snap())
    }

    /** The caller's buffer is none of the driver's. */
    predicate Outside(data: array<int>)
      reads this
    {
      data != masterBuffer && data != txBuffer && data != rxBuffer
    }

    /**
     * `twi_init`: idle with zeroed buffers, the bit rate set to 100 kHz through
     * `twi_setSpeed`, and acknowledgements enabled.
     */
    constructor (regs: Registers)
      requires regs.Valid()
      modifies regs
      ensures Valid() && Snap() == S.Init() && this.regs == regs
      ensures fresh(masterBuffer) && fresh(txBuffer) && fresh(rxBuffer)
      ensures regs.Valid() && (regs.twbr, regs.twsr) == (S.TwbrFor(S.TWI_FREQ), old(regs.twsr) & 0xfc)
      ensures regs.twar == old(regs.twar)
    {
      state := S.READY;
      masterBuffer := new int[S.BUFFER_LENGTH](_ => 0);
      txBuffer := new int[S.BUFFER_LENGTH](_ => 0);
      rxBuffer := new int[S.BUFFER_LENGTH](_ => 0);
      slarw, slAtBytes, slAtLSB, slAtMSB := 0, 0, 0, 0;
      masterIndex, masterLength, txIndex, txLength, rxIndex := 0, 0, 0, 0, 0;
      error, overrun, out := 0, false, [];
      this.regs := regs;
      new;
      var _ := regs.SetSpeed(S.TWI_FREQ);
      assert masterBuffer[..] == S.Zeros() && txBuffer[..] == S.Zeros() && rxBuffer[..] == S.Zeros();
    }

    /** `twi_status`. */
    method Status() returns (rc: int)
      requires Valid()
      ensures rc == S.Status(Snap())
    {
      rc := S.STATUS_BUSY;
      if state == S.READY {
        rc := S.Error2Status(error);
      }
    }

    /**
     * `twi_getDataFromRead`: the bytes of the last read copied into the caller's buffer
     * of `length` bytes, and their count; nothing unless the read ended well and fits.
     */
    method GetDataFromRead(data: array<int>, length: int) returns (rc: int)
      requires Valid() && Outside(data) && IsUInt8(length) && length <= data.Length
      modifies data
      ensures var (n, bytes) := S.GetDataFromRead(Snap(), length);
        rc == n && |bytes| <= data.Length && data[..|bytes|] == bytes && data[|bytes|..] == old(data[|bytes|..])
    {
      rc := 0;
      if state == S.READY && error == S.NO_ERROR && length >= masterIndex {
        var n := S.Min(masterIndex, S.BUFFER_LENGTH);
        var i := 0;
        while i < n
          invariant 0 <= i <= n
          invariant data[..i] == masterBuffer[..i]
          invariant data[i..] == old(data[i..])
        {
          data[i] := masterBuffer[i];
          i := i + 1;
          assert data[i..] == old(data[i..]) by {
            assert forall k :: i <= k < data.Length ==> data[k] == old(data[k]);
          }
        }
        rc := masterIndex;
      }
    }

    /** The START that every accepted `twi_begin*` issues. */
    method StartMaster(state: int, slarw: int, length: int)
      modifies this
      ensures Snap() == S.StartMaster(old(Snap()), state, slarw, length)
    {
      this.state := state;
      error := S.NO_ERROR;
      masterIndex := 0;
      masterLength := length;
      this.slarw := slarw;
      out := out + [S.Start];
      assert masterBuffer[..] == old(masterBuffer[..]);
      assert txBuffer[..] == old(txBuffer[..]);
      assert rxBuffer[..] == old(rxBuffer[..]);
    }

    /** `twi_beginReadFrom`. */
    method BeginReadFrom(address: int, length: int) returns (rc: int)
      requires Valid() && IsUInt8(address) && IsUInt8(length)
      modifies this
      ensures Valid() && (Snap(), rc) == S.BeginReadFrom(old(Snap()), address, length)
    {
      if S.BUFFER_LENGTH < length { return S.STATUS_BAD_ARGS; }
      if state != S.READY { return S.STATUS_BUSY; }
      StartMaster(S.MRX, ToUInt8(address * 2 + 1), ToUInt8(length - 1));
      rc := S.STATUS_OK;
    }

    /** `twi_beginReadFromAt`. */
    method BeginReadFromAt(address: int, offset: int, length: int) returns (rc: int)
      requires Valid() && IsUInt8(address) && IsUInt8(offset) && IsUInt8(length)
      modifies this
      ensures Valid() && (Snap(), rc) == S.BeginReadFromAt(old(Snap()), address, offset, length)
    {
      if S.BUFFER_LENGTH < length { return S.STATUS_BAD_ARGS; }
      if state != S.READY { return S.STATUS_BUSY; }
      StartMaster(S.MRXR, ToUInt8(address * 2), ToUInt8(length - 1));
      slAtLSB := offset;
      slAtBytes := 1;
      rc := S.STATUS_OK;
    }

    /** `twi_beginReadFromAt2`: the offset split into its high and low bytes. */
    method BeginReadFromAt2(address: int, offset: int, length: int) returns (rc: int)
      requires Valid() && IsUInt8(address) && IsUInt16(offset) && IsUInt8(length)
      modifies this
      ensures Valid() && (Snap(), rc) == S.BeginReadFromAt2(old(Snap()), address, offset, length)
    {
      if S.BUFFER_LENGTH < length { return S.STATUS_BAD_ARGS; }
      if state != S.READY { return S.STATUS_BUSY; }
      StartMaster(S.MRXR, ToUInt8(address * 2), ToUInt8(length - 1));
      slAtMSB := offset / 256;
      slAtLSB := offset % 256;
      slAtBytes := 2;
      rc := S.STATUS_OK;
    }

    /** `twi_beginWriteTo`: the caller's `length` bytes copied into the master buffer. */
    method BeginWriteTo(address: int, data: array<int>, length: int) returns (rc: int)
      requires Valid() && Outside(data) && IsUInt8(address) && IsUInt8(length) && length <= data.Length
      modifies this, masterBuffer
      ensures Valid() && (Snap(), rc) == S.BeginWriteTo(old(Snap()), address, data[..length])
    {
      if S.BUFFER_LENGTH < length { return S.STATUS_BAD_ARGS; }
      if state != S.READY { return S.STATUS_BUSY; }
      StartMaster(S.MTX, ToUInt8(address * 2), length);
      Copy(masterBuffer, data, length);
      rc := S.STATUS_OK;
    }

    /** `twi_transmit`: the slave's reply replaced by the caller's `length` bytes. */
    method Transmit(data: array<int>, length: int) returns (rc: int)
      requires Valid() && data != txBuffer && 0 <= length <= data.Length
      modifies this, txBuffer
      ensures Valid() && (Snap(), rc) == S.Transmit(old(Snap()), data[..length])
    {
      if S.BUFFER_LENGTH < length { return 1; }
      if state != S.STX { return 2; }
      txLength := length;
      Copy(txBuffer, data, length);
      rc := 0;
    }

    /** `twi_reply`: the transfer let go on, acknowledging or not. */
    method Reply(ack: bool)
      modifies this
      ensures Snap() == S.ReplyWith(old(Snap()), ack)
    {
      out := out + [S.Reply(ack)];
    }

    /** A byte loaded in TWDR. */
    method Load(b: int)
      modifies this
      ensures Snap() == old(Snap()).(out := old(out) + [S.Load(b)])
    {
      out := out + [S.Load(b)];
    }

    /** `twi_stop`. */
    method Stop()
      modifies this
      ensures Snap() == S.StopBus(old(Snap()))
    {
      out := out + [S.Stop];
      state := S.READY;
    }

    /** `twi_releaseBus`. */
    method ReleaseBus()
      modifies this
      ensures Snap() == S.ReleaseBus(old(Snap()))
    {
      out := out + [S.Release];
      state := S.READY;
    }

    /** `ISR(TWI_vect)`: the interrupt handler, with the calls of `twi_transmit` the slave transmit handler makes. */
    method Isr(irq: S.Irq, calls: seq<seq<int>>) returns (delivered: S.Option<seq<int>>)
      requires Valid()
      modifies this, masterBuffer, txBuffer, rxBuffer
      ensures Valid() && (Snap(), delivered) == S.Isr(old(Snap()), irq, calls)
    {
      S.IsrKeepsValid(Snap(), irq, calls);
      if S.IsMasterStatus(irq.status) {
        MasterIsr(irq);
        delivered := S.None;
      } else if irq.status == TW_ST_SLA_ACK || irq.status == TW_ST_ARB_LOST_SLA_ACK {
        BeginSlaveTransmit();
        HandleCalls(calls);
        FinishSlaveTransmit();
        delivered := S.None;
      } else {
        delivered := SlaveIsr(irq);
      }
    }

    /** The cases of the handler for master mode and errors. */
    method MasterIsr(irq: S.Irq)
      requires Valid()
      modifies this, masterBuffer
      ensures Snap() == S.MasterIsr(old(Snap()), irq)
    {
      var s := irq.status;
      if s == TW_START || s == TW_REP_START {
        Load(slarw);
        Reply(true);
      } else if s == TW_MT_SLA_ACK && state == S.MRXR {
        SendOffset();
      } else if s == TW_MT_DATA_ACK && state == S.MRXR {
        OffsetSent();
      } else if s == TW_MT_SLA_ACK || s == TW_MT_DATA_ACK {
        SendNext();
      } else if s == TW_MT_SLA_NACK || s == TW_MT_DATA_NACK {
        error := s;
        Stop();
      } else if s == TW_MT_ARB_LOST {
        error := s;
        ReleaseBus();
      } else if s == TW_MR_DATA_ACK || s == TW_MR_SLA_ACK {
        if s == TW_MR_DATA_ACK {
          StoreByte(irq.data);
        }
        Reply(masterIndex < masterLength);
      } else if s == TW_MR_DATA_NACK || s == TW_MR_SLA_NACK {
        if s == TW_MR_DATA_NACK {
          StoreByte(irq.data);
        }
        Stop();
      } else {
        error := TW_BUS_ERROR;
        Stop();
      }
    }

    /** Address acknowledged in a read-at: the first byte of the offset, the high one of two. */
    method SendOffset()
      modifies this
      ensures Snap() == S.SendOffset(old(Snap()))
    {
      var b := slAtBytes;
      slAtBytes := ToUInt8(b - 1);
      Load(if b == 2 then slAtMSB else slAtLSB);
      Reply(true);
    }

    /** Offset byte acknowledged in a read-at: the low byte if one is left, else a repeated START with the read bit. */
    method OffsetSent()
      modifies this
      ensures Snap() == S.OffsetSent(old(Snap()))
    {
      var b := slAtBytes;
      slAtBytes := ToUInt8(b - 1);
      if b == 1 {
        Load(slAtLSB);
        Reply(true);
      } else {
        slarw := S.SetRead(slarw);
        out := out + [S.Start];
      }
    }

    /** Address or byte acknowledged in a write: the next byte of the buffer, or STOP when all are sent. */
    method SendNext()
      requires Valid()
      modifies this
      ensures Snap() == S.SendNext(old(Snap()))
    {
      if masterIndex < masterLength {
        var i := masterIndex;
        masterIndex := ToUInt8(i + 1);
        overrun := overrun || i >= S.BUFFER_LENGTH;
        Load(if i < S.BUFFER_LENGTH then masterBuffer[i] else 0);
        Reply(true);
      } else {
        Stop();
      }
    }

    /** A byte received as master, put at the index, which advances. */
    method StoreByte(d: int)
      requires Valid()
      modifies this, masterBuffer
      ensures Snap() == S.Store(old(Snap()), d)
    {
      var i := masterIndex;
      if i < S.BUFFER_LENGTH {
        masterBuffer[i] := d;
      }
      masterIndex := ToUInt8(i + 1);
      overrun := overrun || i >= S.BUFFER_LENGTH;
    }

    /** The cases of the handler for slave mode, but for being addressed as a transmitter. */
    method SlaveIsr(irq: S.Irq) returns (delivered: S.Option<seq<int>>)
      requires Valid()
      requires irq.status != TW_ST_SLA_ACK && irq.status != TW_ST_ARB_LOST_SLA_ACK
      modifies this, txBuffer, rxBuffer
      ensures (Snap(), delivered) == S.SlaveIsr(old(Snap()), irq, [])
    {
      var s := irq.status;
      delivered := S.None;
      if s == TW_SR_SLA_ACK || s == TW_SR_GCALL_ACK || s == TW_SR_ARB_LOST_SLA_ACK || s == TW_SR_ARB_LOST_GCALL_ACK {
        state := S.SRX;
        rxIndex := 0;
        Reply(true);
      } else if s == TW_SR_DATA_ACK || s == TW_SR_GCALL_DATA_ACK {
        if rxIndex < S.BUFFER_LENGTH {
          rxBuffer[rxIndex] := irq.data;
          rxIndex := rxIndex + 1;
          Reply(true);
        } else {
          Reply(false);
        }
      } else if s == TW_SR_STOP {
        if rxIndex < S.BUFFER_LENGTH {
          rxBuffer[rxIndex] := 0;
        }
        delivered := S.Some(rxBuffer[..rxIndex]);
        Reply(true);
        state := S.READY;
      } else if s == TW_SR_DATA_NACK || s == TW_SR_GCALL_DATA_NACK {
        Reply(false);
      } else if s == TW_ST_DATA_ACK {
        SendReplyByte();
      } else if s == TW_ST_DATA_NACK || s == TW_ST_LAST_DATA {
        Reply(true);
        state := S.READY;
      }
    }

    /** Addressed as a slave transmitter: the reply emptied before the handler runs. */
    method BeginSlaveTransmit()
      requires Valid()
      modifies this
      ensures Valid() && Snap() == S.SlaveTransmitting(old(Snap()))
    {
      state := S.STX;
      txIndex := 0;
      txLength := 0;
    }

    /** The slave transmit handler's calls of `twi_transmit`, in order. */
    method HandleCalls(calls: seq<seq<int>>)
      requires Valid()
      modifies this, txBuffer
      ensures Valid() && Snap() == S.Handle(old(Snap()), calls)
    {
      var k := 0;
      while k < |calls|
        invariant 0 <= k <= |calls| && Valid()
        invariant S.Handle(Snap(), calls[k..]) == S.Handle(old(Snap()), calls)
      {
        var c := calls[k];
        var a := new int[|c|](i requires 0 <= i < |c| => c[i]);
        assert a[..|c|] == c;
        ghost var t := Snap();
        var _ := Transmit(a, |c|);
        assert calls[k..][0] == c && calls[k..][1..] == calls[k + 1..];
        assert S.Handle(t, calls[k..]) == S.Handle(Snap(), calls[k + 1..]);
        k := k + 1;
      }
    }

    /** After the handler: a single 0 if it supplied nothing, then the first byte of the reply. */
    method FinishSlaveTransmit()
      requires Valid()
      modifies this, txBuffer
      ensures Snap() == S.SlaveSend(S.DefaultReply(old(Snap())))
    {
      if txLength == 0 {
        txLength := 1;
        txBuffer[0] := 0;
        assert txBuffer[..] == S.Overwrite(old(txBuffer[..]), [0]);
      }
      SendReplyByte();
    }

    /** A byte to send as a slave: the next of the reply, ACK expected while more remain. */
    method SendReplyByte()
      requires Valid()
      modifies this
      ensures Snap() == S.SlaveSend(old(Snap()))
    {
      var i := txIndex;
      txIndex := ToUInt8(i + 1);
      overrun := overrun || i >= S.BUFFER_LENGTH;
      Load(if 0 <= i < S.BUFFER_LENGTH then txBuffer[i] else 0);
      Reply(txIndex < txLength);
    }

    /** The interrupts raised while a blocking call waits for the engine, handled in order. */
    method Wait(irqs: seq<S.Irq>)
      requires Valid()
      modifies this, masterBuffer, txBuffer, rxBuffer
      ensures Valid() && Snap() == S.Run(old(Snap()), irqs)
    {
      var k := 0;
      while k < |irqs|
        invariant 0 <= k <= |irqs| && Valid()
        invariant S.Run(Snap(), irqs[k..]) == S.Run(old(Snap()), irqs)
      {
        ghost var t := Snap();
        var _ := Isr(irqs[k], []);
        assert irqs[k..] == [irqs[k]] + irqs[k + 1..];
        S.RunCons(t, irqs[k], irqs[k + 1..]);
        k := k + 1;
      }
    }

    /**
     * `twi_readFrom`, once its first wait finds the engine idle: `done` is false while the
     * second wait would still spin after the given interrupts.
     */
    method ReadFrom(address: int, data: array<int>, length: int, irqs: seq<S.Irq>) returns (done: bool, rc: int)
      requires Valid() && state == S.READY && Outside(data) && IsUInt8(address) && IsUInt8(length) && length <= data.Length
      modifies this, masterBuffer, txBuffer, rxBuffer, data
      ensures Valid()
      ensures var r := S.ReadFrom(old(Snap()), address, length, irqs);
        (done <==> r.Some?) && (done ==> Snap() == r.value.0 && rc == r.value.1 && Delivered(data, r.value.2))
    {
      rc := BeginReadFrom(address, length);
      if rc != S.STATUS_OK { return true, 0; }
      done, rc := Collect(data, length, irqs);
    }

    /** `twi_readFromAt`, likewise. */
    method ReadFromAt(address: int, offset: int, data: array<int>, length: int, irqs: seq<S.Irq>) returns (done: bool, rc: int)
      requires Valid() && state == S.READY && Outside(data) && IsUInt8(address) && IsUInt8(offset)
      requires IsUInt8(length) && length <= data.Length
      modifies this, masterBuffer, txBuffer, rxBuffer, data
      ensures Valid()
      ensures var r := S.ReadFromAt(old(Snap()), address, offset, length, irqs);
        (done <==> r.Some?) && (done ==> Snap() == r.value.0 && rc == r.value.1 && Delivered(data, r.value.2))
    {
      rc := BeginReadFromAt(address, offset, length);
      if rc != S.STATUS_OK { return true, 0; }
      done, rc := Collect(data, length, irqs);
    }

    /** `twi_readFromAt2`, with its check of the error the last transfer left. */
    method ReadFromAt2(address: int, offset: int, data: array<int>, length: int, irqs: seq<S.Irq>) returns (done: bool, rc: int)
      requires Valid() && state == S.READY && Outside(data) && IsUInt8(address) && IsUInt16(offset)
      requires IsUInt8(length) && length <= data.Length
      modifies this, masterBuffer, txBuffer, rxBuffer, data
      ensures Valid()
      ensures var r := S.ReadFromAt2(old(Snap()), address, offset, length, irqs);
        (done <==> r.Some?) && (done ==> Snap() == r.value.0 && rc == r.value.1 && Delivered(data, r.value.2))
    {
      if error != S.NO_ERROR { return true, 0; }
      rc := BeginReadFromAt2(address, offset, length);
      if rc != S.STATUS_OK { return true, 0; }
      done, rc := Collect(data, length, irqs);
    }

    /** The bytes handed back are at the start of the caller's buffer. */
    predicate Delivered(data: array<int>, bytes: seq<int>)
      reads data
    {
      |bytes| <= data.Length && data[..|bytes|] == bytes
    }

    /** The second wait of a blocking read, then `twi_getDataFromRead`. */
    method Collect(data: array<int>, length: int, irqs: seq<S.Irq>) returns (done: bool, rc: int)
      requires Valid() && Outside(data) && IsUInt8(length) && length <= data.Length
      modifies this, masterBuffer, txBuffer, rxBuffer, data
      ensures Valid()
      ensures var r := S.Collect(S.Run(old(Snap()), irqs), length);
        (done <==> r.Some?) && (done ==> Snap() == r.value.0 && rc == r.value.1 && Delivered(data, r.value.2))
    {
      Wait(irqs);
      if state != S.READY { return false, 0; }
      rc := GetDataFromRead(data, length);
      done := true;
    }

    /** `twi_writeTo`, once its first wait finds the engine idle: the refusal, or the status of the finished write. */
    method WriteTo(address: int, data: array<int>, length: int, irqs: seq<S.Irq>) returns (done: bool, rc: int)
      requires Valid() && state == S.READY && Outside(data) && IsUInt8(address) && IsUInt8(length) && length <= data.Length
      modifies this, masterBuffer, txBuffer, rxBuffer
      ensures Valid()
      ensures var r := S.WriteTo(old(Snap()), address, old(data[..length]), irqs);
        (done <==> r.Some?) && (done ==> Snap() == r.value.0 && rc == r.value.1)
    {
      rc := BeginWriteTo(address, data, length);
      if rc != S.STATUS_OK { return true, rc; }
      Wait(irqs);
      if state != S.READY { return false, 0; }
      rc := S.Error2Status(error);
      done := true;
    }
  }

  /** The first `length` bytes of `src` copied to the start of `dst`, the rest of `dst` kept. */
  method Copy(dst: array<int>, src: array<int>, length: int)
    requires dst != src && 0 <= length <= src.Length && length <= dst.Length
    modifies dst
    ensures dst[..] == S.Overwrite(old(dst[..]), src[..length])
  {
    var i := 0;
    while i < length
      invariant 0 <= i <= length
      invariant dst[..i] == src[..i]
      invariant dst[i..] == old(dst[i..])
    {
      dst[i] := src[i];
      i := i + 1;
      assert dst[i..] == old(dst[i..]) by {
        assert forall k :: i <= k < dst.Length ==> dst[k] == old(dst[k]);
      }
    }
    assert dst[..] == dst[..length] + dst[length..];
  }
}
