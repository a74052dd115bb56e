// The AVR two-wire interface (TWI) as the drivers see it: five 8-bit registers,
// the bits of the control register and the status codes of avr-libc's
// util/twi.h. The hardware itself is not modelled: between two calls of a
// driver method the environment may write TWSR (the status of the bus event
// that just completed) and TWDR (a received byte), as the peripheral does.
module Avr {
  // Bits of TWCR.
  const TWINT: bv8 := 0x80
  const TWEA: bv8 := 0x40
  const TWSTA: bv8 := 0x20
  const TWSTO: bv8 := 0x10
  const TWWC: bv8 := 0x08
  const TWEN: bv8 := 0x04
  const TWIE: bv8 := 0x01

  // The prescaler bits of TWSR and the mask that leaves the status code.
  const TW_STATUS_MASK: bv8 := 0xf8

  // The direction bit that follows a 7-bit address (section 3.1.10 of the I2C-bus specification UM10204).
  const TW_WRITE: bv8 := 0
  const TW_READ: bv8 := 1

  // Master status codes.
  const TW_START: bv8 := 0x08
  const TW_REP_START: bv8 := 0x10
  const TW_MT_SLA_ACK: bv8 := 0x18
  const TW_MT_SLA_NACK: bv8 := 0x20
  const TW_MT_DATA_ACK: bv8 := 0x28
  const TW_MT_DATA_NACK: bv8 := 0x30
  const TW_MT_ARB_LOST: bv8 := 0x38
  const TW_MR_ARB_LOST: bv8 := 0x38
  const TW_MR_SLA_ACK: bv8 := 0x40
  const TW_MR_SLA_NACK: bv8 := 0x48
  const TW_MR_DATA_ACK: bv8 := 0x50
  const TW_MR_DATA_NACK: bv8 := 0x58

  // Slave status codes.
  const TW_SR_SLA_ACK: bv8 := 0x60
  const TW_SR_ARB_LOST_SLA_ACK: bv8 := 0x68
  const TW_SR_GCALL_ACK: bv8 := 0x70
  const TW_SR_ARB_LOST_GCALL_ACK: bv8 := 0x78
  const TW_SR_DATA_ACK: bv8 := 0x80
  const TW_SR_DATA_NACK: bv8 := 0x88
  const TW_SR_GCALL_DATA_ACK: bv8 := 0x90
  const TW_SR_GCALL_DATA_NACK: bv8 := 0x98
  const TW_SR_STOP: bv8 := 0xa0
  const TW_ST_SLA_ACK: bv8 := 0xa8
  const TW_ST_ARB_LOST_SLA_ACK: bv8 := 0xb0
  const TW_ST_DATA_ACK: bv8 := 0xb8
  const TW_ST_DATA_NACK: bv8 := 0xc0
  const TW_ST_LAST_DATA: bv8 := 0xc8

  // Miscellaneous status codes.
  const TW_NO_INFO: bv8 := 0xf8
  const TW_BUS_ERROR: bv8 := 0x00

  /** `TW_STATUS`: the status register without its prescaler bits. */
  function Status(twsr: bv8): (r: bv8)
    ensures r & 0x07 == 0 && r <= twsr
  {
    twsr & TW_STATUS_MASK
  }

  /** The address byte of a transfer: the 7-bit address shifted left, then the direction bit. */
  function AddressByte(addr: bv8, rw: bv8): (r: bv8)
    requires rw == TW_WRITE || rw == TW_READ
    ensures r & 1 == rw && r >> 1 == addr & 0x7f
  {
    (addr << 1) | rw
  }

  /**
   * What the bus does with one operation the driver starts: the status code
   * TWSR reports when the operation completes and the byte TWDR then holds.
   */
  datatype Event = Event(status: bv8, data: bv8)

  /** An operation as the driver started it: the TWCR value written and TWDR at that moment. */
  datatype Command = Command(twcr: bv8, twdr: bv8)

  /** TWSR after a completion: the prescaler bits kept, the status bits from the bus. */
  function Settle(twsr: bv8, e: Event): (r: bv8)
    ensures r & 0x07 == twsr & 0x07 && Status(r) == Status(e.status)
  {
    (twsr & 0x07) | (e.status & TW_STATUS_MASK)
  }

  /**
   * The registers of the TWI peripheral. The bus is an oracle fixed in advance:
   * `bus(k)` is the outcome of the k-th operation the peripheral completes, and
   * `clock` counts the completed operations. The ghost `log` records every
   * operation the drivers have started, in order.
   */
  class Twi {
    var twcr: bv8
    var twdr: bv8
    var twar: bv8
    var twbr: bv8
    var twsr: bv8
    const bus: nat -> Event
    var clock: nat
    ghost var log: seq<Command>

    constructor(twcr: bv8, twdr: bv8, twar: bv8, twbr: bv8, twsr: bv8, bus: nat -> Event)
      ensures this.twcr == twcr && this.twdr == twdr && this.twar == twar
      ensures this.twbr == twbr && this.twsr == twsr && this.bus == bus
      ensures clock == 0 && log == []
    {
      this.twcr, this.twdr, this.twar, this.twbr, this.twsr := twcr, twdr, twar, twbr, twsr;
      this.bus, clock, log := bus, 0, [];
    }

    /**
     * The operation started by the last write of TWCR completes (TWINT is set
     * by the hardware): TWSR gets the status and TWDR the byte on the bus.
     */
    method Complete()
      modifies this
      ensures log == old(log) + [Command(old(twcr), old(twdr))] && clock == old(clock) + 1
      ensures twsr == Settle(old(twsr), bus(old(clock))) && twdr == bus(old(clock)).data
      ensures twcr == old(twcr) | TWINT && twar == old(twar) && twbr == old(twbr)
    {
      log := log + [Command(twcr, twdr)];
      twsr := Settle(twsr, bus(clock));
      twdr := bus(clock).data;
      twcr := twcr | TWINT;
      clock := clock + 1;
    }

    /** A STOP condition has been sent: the hardware clears TWSTO; no status is reported. */
    method StopSent()
      modifies this
      ensures log == old(log) + [Command(old(twcr), old(twdr))] && clock == old(clock)
      ensures twcr == old(twcr) & !TWSTO && twdr == old(twdr) && twsr == old(twsr)
      ensures twar == old(twar) && twbr == old(twbr)
    {
      log := log + [Command(twcr, twdr)];
      twcr := twcr & !TWSTO;
    }
  }
}
