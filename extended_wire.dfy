// `ExtendedWire.cpp`: the Wire object over the TWI driver. It keeps a 32-byte
// receive buffer the caller reads from and a 32-byte transmit buffer it queues
// a master write in; reads and writes go through the `Driver` of ExtendedTwi,
// and as a slave it serves the driver's receive and transmit events.
//
// The user's callbacks are reduced to what the library sees of them: whether
// one is registered, the counts a receive callback is handed (`received`), and
// the `send` calls a request callback makes (the `replies` an interrupt is given).
module ExtendedWire {
  import opened CInt
  import opened Avr
  import S = ExtendedTwiState
  import T = ExtendedTwi

  const BUFFER_LENGTH: int := 32

  /** A quantity clamped to the buffer, as every `requestFrom*` and `kickoffRequestFrom*` does first. */
  function Clamp(quantity: int): (r: int)
    ensures r <= BUFFER_LENGTH && (r == quantity || r == BUFFER_LENGTH)
    ensures quantity <= BUFFER_LENGTH <==> r == quantity
  {
    if quantity > BUFFER_LENGTH then BUFFER_LENGTH else quantity
  }

  /** A master write queued: `p` with the bytes `bs` appended one by one, each dropped once 32 are queued. */
  function Queue(p: seq<int>, bs: seq<int>): (r: seq<int>)
    decreases |bs|
  {
    if bs == [] then p
    else Queue(if |p| < BUFFER_LENGTH then p + [bs[0]] else p, bs[1..])
  }

  /** The bytes queued are those given, in order, as many as fit in 32. */
  lemma {:induction false} QueueKeepsPrefix(p: seq<int>, bs: seq<int>)
    requires |p| <= BUFFER_LENGTH
    ensures var r := Queue(p, bs);
      && |r| == (if |p| + |bs| <= BUFFER_LENGTH then |p| + |bs| else BUFFER_LENGTH)
      && r == (p + bs)[..|r|]
    decreases |bs|
  {
    if bs != [] {
      var p1 := if |p| < BUFFER_LENGTH then p + [bs[0]] else p;
      QueueKeepsPrefix(p1, bs[1..]);
      var r := Queue(p, bs);
      assert r == Queue(p1, bs[1..]);
      if |p| < BUFFER_LENGTH {
        assert p1 + bs[1..] == p + bs;
      } else {
        assert (p1 + bs[1..])[..|r|] == (p + bs)[..|r|];
      }
    }
  }

  /** Queuing a + b is queuing a, then b. */
  lemma {:induction false} QueueAppend(p: seq<int>, a: seq<int>, b: seq<int>)
    ensures Queue(Queue(p, a), b) == Queue(p, a + b)
    decreases |a|
  {
    if a == [] {
      assert a + b == b;
    } else {
      var p1 := if |p| < BUFFER_LENGTH then p + [a[0]] else p;
      QueueAppend(p1, a[1..], b);
      assert (a + b)[0] == a[0] && (a + b)[1..] == a[1..] + b;
    }
  }

  /** The bytes of the replies, in order. */
  function Flatten(replies: seq<seq<int>>): (r: seq<int>)
    decreases |replies|
  {
    if replies == [] then [] else replies[0] + Flatten(replies[1..])
  }

  class Wire {
    const rxBuffer: array<int>
    var rxIndex: int
    var rxLength: int
    var asyncRxActive: bool
    var txAddress: int
    const txBuffer: array<int>
    var txIndex: int
    var txLength: int
    var transmitting: bool
    var onReceiveSet: bool
    var onRequestSet: bool
    var received: seq<int>
    const twi: T.Driver

    /** Two buffers of 32 bytes apart from the driver's, an unread part of the receive buffer, and a queue that is a prefix of the transmit buffer. */
    predicate Valid()
      reads this, rxBuffer, txBuffer, twi, twi.masterBuffer, twi.txBuffer, twi.rxBuffer
    {
      && twi.Valid() && twi.Outside(rxBuffer) && twi.Outside(txBuffer) && rxBuffer != txBuffer
      && rxBuffer.Length == BUFFER_LENGTH && txBuffer.Length == BUFFER_LENGTH
      && 0 <= rxIndex <= rxLength <= BUFFER_LENGTH
      && txIndex == txLength && 0 <= txLength <= BUFFER_LENGTH
      && IsUInt8(txAddress)
    }

    /** The bytes received and not yet read. */
    function Unread(): seq<int>
      reads this, rxBuffer
      requires 0 <= rxIndex <= rxLength <= rxBuffer.Length
    {
      rxBuffer[rxIndex..rxLength]
    }

    /** The bytes queued for a master write. */
    function Pending(): seq<int>
      reads this, txBuffer
      requires 0 <= txLength <= txBuffer.Length
    {
      txBuffer[..txLength]
    }

    /**
     * What the caller reads next: once a read started without waiting has ended, the
     * bytes it brought (none if it failed); otherwise what is unread already.
     */
    function Incoming(): (r: seq<int>)
      reads this, rxBuffer, txBuffer, twi, twi.masterBuffer, twi.txBuffer, twi.rxBuffer
      requires Valid()
    {
      if asyncRxActive && S.Status(twi.Snap()) != S.STATUS_BUSY then S.GetDataFromRead(twi.Snap(), BUFFER_LENGTH).1
      else Unread()
    }

    /** `begin()`: both buffers empty, and the driver started by `twi_init`. */
    constructor Begin(regs: T.Registers)
      requires regs.Valid()
      modifies regs
      ensures Valid() && fresh(twi) && fresh(rxBuffer) && fresh(txBuffer) && twi.regs == regs
      ensures twi.Snap() == S.Init() && Unread() == [] && Pending() == []
      ensures !transmitting && !asyncRxActive && !onReceiveSet && !onRequestSet && received == []
    {
      rxBuffer := new int[BUFFER_LENGTH](_ => 0);
      rxIndex, rxLength := 0, 0;
      txBuffer := new int[BUFFER_LENGTH](_ => 0);
      txIndex, txLength := 0, 0;
      twi := new T.Driver(regs);
      asyncRxActive, txAddress, transmitting := false, 0, false;
      onReceiveSet, onRequestSet, received := false, false, [];
    }

    /** `begin(address)`: the slave address set, then as `begin()`. */
    constructor BeginSlave(regs: T.Registers, address: int)
      requires regs.Valid() && IsUInt8(address)
      modifies regs
      ensures Valid() && fresh(twi) && fresh(rxBuffer) && fresh(txBuffer) && twi.regs == regs
      ensures twi.Snap() == S.Init() && Unread() == [] && Pending() == []
      ensures !transmitting && !asyncRxActive && !onReceiveSet && !onRequestSet && received == []
      ensures regs.twar == ToUInt8(address * 2)
    {
      regs.SetAddress(address);
      rxBuffer := new int[BUFFER_LENGTH](_ => 0);
      rxIndex, rxLength := 0, 0;
      txBuffer := new int[BUFFER_LENGTH](_ => 0);
      txIndex, txLength := 0, 0;
      twi := new T.Driver(regs);
      asyncRxActive, txAddress, transmitting := false, 0, false;
      onReceiveSet, onRequestSet, received := false, false, [];
    }

    /** `onReceive`: a receive callback registered. */
    method OnReceive()
      modifies this
      ensures onReceiveSet && onRequestSet == old(onRequestSet) && received == old(received)
    {
      onReceiveSet := true;
    }

    /** `onRequest`: a request callback registered. */
    method OnRequest()
      modifies this
      ensures onRequestSet && onReceiveSet == old(onReceiveSet)
    {
      onRequestSet := true;
    }

    /** `setSpeed`: `twi_setSpeed`. */
    method SetSpeed(bps: int) returns (former: int)
      requires Valid() && twi.regs.Valid() && 0 < bps && IsUInt32(bps)
      modifies twi.regs
      ensures twi.regs.Valid() && (twi.regs.twbr, twi.regs.twsr, former) == S.SetSpeed(old(twi.regs.twbr), old(twi.regs.twsr), bps)
    {
      former := twi.regs.SetSpeed(bps);
    }

    /** `status`: the driver's status codes, which the library's match. */
    method Status() returns (rc: int)
      requires Valid()
      ensures rc == S.Status(twi.Snap())
    {
      rc := twi.Status();
    }

    /**
     * `requestFrom`: a blocking read of up to 32 bytes into the receive buffer, which then
     * holds exactly what the driver handed back; `done` is false while the wait would spin.
     */
    method RequestFrom(address: int, quantity: int, irqs: seq<S.Irq>) returns (done: bool, read: int)
      requires Valid() && twi.state == S.READY && IsUInt8(address) && IsUInt8(quantity)
      modifies this, rxBuffer, twi, twi.masterBuffer, twi.txBuffer, twi.rxBuffer
      ensures Valid()
      ensures var r := S.ReadFrom(old(twi.Snap()), address, Clamp(quantity), irqs);
        (done <==> r.Some?) && (done ==> twi.Snap() == r.value.0 && read == r.value.1 && Unread() == r.value.2)
    {
      var q := Clamp(quantity);
      done, read := twi.ReadFrom(address, rxBuffer, q, irqs);
      if done { Fill(read); }
    }

    /** `requestFromAt`: likewise, at a one-byte offset. */
    method RequestFromAt(address: int, offset: int, quantity: int, irqs: seq<S.Irq>) returns (done: bool, read: int)
      requires Valid() && twi.state == S.READY && IsUInt8(address) && IsUInt8(offset) && IsUInt8(quantity)
      modifies this, rxBuffer, twi, twi.masterBuffer, twi.txBuffer, twi.rxBuffer
      ensures Valid()
      ensures var r := S.ReadFromAt(old(twi.Snap()), address, offset, Clamp(quantity), irqs);
        (done <==> r.Some?) && (done ==> twi.Snap() == r.value.0 && read == r.value.1 && Unread() == r.value.2)
    {
      var q := Clamp(quantity);
      done, read := twi.ReadFromAt(address, offset, rxBuffer, q, irqs);
      if done { Fill(read); }
    }

    /** `requestFromAt2`: likewise, at a two-byte offset given as an `int` and passed on as `uint16_t`. */
    method RequestFromAt2(address: int, offset: int, quantity: int, irqs: seq<S.Irq>) returns (done: bool, read: int)
      requires Valid() && twi.state == S.READY && IsUInt8(address) && IsInt16(offset) && IsUInt8(quantity)
      modifies this, rxBuffer, twi, twi.masterBuffer, twi.txBuffer, twi.rxBuffer
      ensures Valid()
      ensures var r := S.ReadFromAt2(old(twi.Snap()), address, ToUInt16(offset), Clamp(quantity), irqs);
        (done <==> r.Some?) && (done ==> twi.Snap() == r.value.0 && read == r.value.1 && Unread() == r.value.2)
    {
      var q := Clamp(quantity);
      done, read := twi.ReadFromAt2(address, ToUInt16(offset), rxBuffer, q, irqs);
      if done { Fill(read); }
    }

    /** The receive buffer's first `read` bytes made the unread ones. */
    method Fill(read: int)
      requires 0 <= read <= BUFFER_LENGTH
      modifies this
      ensures rxIndex == 0 && rxLength == read
      ensures asyncRxActive == old(asyncRxActive) && transmitting == old(transmitting)
      ensures txIndex == old(txIndex) && txLength == old(txLength) && txAddress == old(txAddress)
    {
      rxIndex := 0;
      rxLength := read;
    }

    /** `kickoffRequestFrom`: a read started without waiting; it is collected later only if the start was accepted. */
    method KickoffRequestFrom(address: int, quantity: int) returns (rc: int)
      requires Valid() && IsUInt8(address) && IsUInt8(quantity)
      modifies this, twi
      ensures Valid() && (twi.Snap(), rc) == S.BeginReadFrom(old(twi.Snap()), address, Clamp(quantity))
      ensures asyncRxActive == (rc == S.STATUS_OK) && Unread() == old(Unread()) && Pending() == old(Pending())
    {
      rc := twi.BeginReadFrom(address, Clamp(quantity));
      asyncRxActive := rc == S.STATUS_OK;
    }

    /** `kickoffRequestFromAt`. */
    method KickoffRequestFromAt(address: int, offset: int, quantity: int) returns (rc: int)
      requires Valid() && IsUInt8(address) && IsUInt8(offset) && IsUInt8(quantity)
      modifies this, twi
      ensures Valid() && (twi.Snap(), rc) == S.BeginReadFromAt(old(twi.Snap()), address, offset, Clamp(quantity))
      ensures asyncRxActive == (rc == S.STATUS_OK) && Unread() == old(Unread()) && Pending() == old(Pending())
    {
      rc := twi.BeginReadFromAt(address, offset, Clamp(quantity));
      asyncRxActive := rc == S.STATUS_OK;
    }

    /** `kickoffRequestFromAt2`, the offset passed on as `uint16_t`. */
    method KickoffRequestFromAt2(address: int, offset: int, quantity: int) returns (rc: int)
      requires Valid() && IsUInt8(address) && IsInt16(offset) && IsUInt8(quantity)
      modifies this, twi
      ensures Valid() && (twi.Snap(), rc) == S.BeginReadFromAt2(old(twi.Snap()), address, ToUInt16(offset), Clamp(quantity))
      ensures asyncRxActive == (rc == S.STATUS_OK) && Unread() == old(Unread()) && Pending() == old(Pending())
    {
      rc := twi.BeginReadFromAt2(address, ToUInt16(offset), Clamp(quantity));
      asyncRxActive := rc == S.STATUS_OK;
    }

    /** `beginTransmission`: a master write to `address` started, with nothing queued. */
    method BeginTransmission(address: int)
      requires Valid() && IsUInt8(address)
      modifies this
      ensures Valid() && transmitting && txAddress == address && Pending() == []
      ensures Unread() == old(Unread()) && asyncRxActive == old(asyncRxActive) && Settings() == old(Settings())
    {
      transmitting := true;
      txAddress := address;
      txIndex := 0;
      txLength := 0;
    }

    /** `beginTransmissionAt`: the register offset queued first. */
    method BeginTransmissionAt(address: int, offset: int)
      requires Valid() && IsUInt8(address) && IsUInt8(offset)
      modifies this, txBuffer, twi, twi.txBuffer
      ensures Valid() && transmitting && txAddress == address && Pending() == [offset]
      ensures Unread() == old(Unread()) && asyncRxActive == old(asyncRxActive) && Settings() == old(Settings())
      ensures twi.Snap() == old(twi.Snap())
    {
      BeginTransmission(address);
      Send(offset);
    }

    /** `beginTransmissionAt2`: the two-byte offset queued first, high byte first. */
    method BeginTransmissionAt2(address: int, offset: int)
      requires Valid() && IsUInt8(address) && IsInt16(offset)
      modifies this, txBuffer, twi, twi.txBuffer
      ensures Valid() && transmitting && txAddress == address
      ensures Pending() == [ToUInt8(offset / 256), offset % 256]
      ensures Unread() == old(Unread()) && asyncRxActive == old(asyncRxActive) && Settings() == old(Settings())
      ensures twi.Snap() == old(twi.Snap())
    {
      BeginTransmission(address);
      Send(ToUInt8(offset / 256));
      Send(offset % 256);
    }

    /** `kickoffTransmission`: the queued bytes handed to the driver; the queue cleared unless the driver was busy. */
    method KickoffTransmission() returns (ret: int)
      requires Valid()
      modifies this, twi, twi.masterBuffer
      ensures Valid() && (twi.Snap(), ret) == S.BeginWriteTo(old(twi.Snap()), old(txAddress), old(Pending()))
      ensures ret == S.STATUS_BUSY ==> Pending() == old(Pending()) && transmitting == old(transmitting)
      ensures ret != S.STATUS_BUSY ==> Pending() == [] && !transmitting
      ensures Unread() == old(Unread()) && asyncRxActive == old(asyncRxActive)
    {
      ret := twi.BeginWriteTo(txAddress, txBuffer, txLength);
      if ret != S.STATUS_BUSY {
        txIndex := 0;
        txLength := 0;
        transmitting := false;
      }
    }

    /** `endTransmission`: a blocking write of the queued bytes, then the queue cleared. */
    method EndTransmission(irqs: seq<S.Irq>) returns (done: bool, ret: int)
      requires Valid() && twi.state == S.READY
      modifies this, twi, twi.masterBuffer, twi.txBuffer, twi.rxBuffer
      ensures Valid()
      ensures var r := S.WriteTo(old(twi.Snap()), old(txAddress), old(Pending()), irqs);
        (done <==> r.Some?) && (done ==> twi.Snap() == r.value.0 && ret == r.value.1 && Pending() == [] && !transmitting)
    {
      done, ret := twi.WriteTo(txAddress, txBuffer, txLength, irqs);
      if done {
        txIndex := 0;
        txLength := 0;
        transmitting := false;
      }
    }

    /**
     * `send(uint8_t)`: during a master write the byte is queued, or dropped when 32 are;
     * otherwise it is the slave's whole reply, through `twi_transmit`.
     */
    method Send(b: int)
      requires Valid()
      modifies this, txBuffer, twi, twi.txBuffer
      ensures Valid() && transmitting == old(transmitting) && txAddress == old(txAddress)
      ensures Unread() == old(Unread()) && asyncRxActive == old(asyncRxActive) && Settings() == old(Settings())
      ensures transmitting ==> Pending() == Queue(old(Pending()), [b]) && twi.Snap() == old(twi.Snap())
      ensures !transmitting ==> Pending() == old(Pending()) && twi.Snap() == S.Transmit(old(twi.Snap()), [b]).0
    {
      if transmitting {
        if txLength >= BUFFER_LENGTH { return; }
        txBuffer[txIndex] := b;
        txIndex := txIndex + 1;
        txLength := txIndex;
      } else {
        var a := new int[1](_ => b);
        assert a[..1] == [b];
        var _ := twi.Transmit(a, 1);
      }
    }

    /** `send(uint8_t*, uint8_t)`: each byte queued in turn, or, as a slave, the whole reply at once. */
    method SendBytes(data: array<int>, quantity: int)
      requires Valid() && twi.Outside(data) && data != rxBuffer && data != txBuffer && 0 <= quantity <= data.Length
      modifies this, txBuffer, twi, twi.txBuffer
      ensures Valid() && transmitting == old(transmitting) && txAddress == old(txAddress)
      ensures Unread() == old(Unread()) && asyncRxActive == old(asyncRxActive) && Settings() == old(Settings())
      ensures transmitting ==> Pending() == Queue(old(Pending()), data[..quantity]) && twi.Snap() == old(twi.Snap())
      ensures !transmitting ==> Pending() == old(Pending()) && twi.Snap() == S.Transmit(old(twi.Snap()), data[..quantity]).0
    {
      if transmitting {
        var i := 0;
        while i < quantity
          invariant 0 <= i <= quantity && Valid() && transmitting && txAddress == old(txAddress)
          invariant Unread() == old(Unread()) && asyncRxActive == old(asyncRxActive) && Settings() == old(Settings())
          invariant Pending() == Queue(old(Pending()), data[..i]) && twi.Snap() == old(twi.Snap())
        {
          Send(data[i]);
          QueueAppend(old(Pending()), data[..i], [data[i]]);
          assert data[..i + 1] == data[..i] + [data[i]];
          i := i + 1;
        }
      } else {
        var _ := twi.Transmit(data, quantity);
      }
    }

    /**
     * `asyncBufferUpdate`: a read started without waiting, once the driver is idle, is
     * collected into the receive buffer; a failed one leaves nothing to read.
     */
    method AsyncBufferUpdate()
      requires Valid()
      modifies this, rxBuffer
      ensures Valid() && Unread() == old(Incoming())
      ensures asyncRxActive == (old(asyncRxActive) && S.Status(twi.Snap()) == S.STATUS_BUSY)
      ensures transmitting == old(transmitting) && Pending() == old(Pending()) && txAddress == old(txAddress)
    {
      if asyncRxActive {
        var st := twi.Status();
        if st == S.STATUS_BUSY { return; }
        var n := twi.GetDataFromRead(rxBuffer, BUFFER_LENGTH);
        rxLength := n;
        rxIndex := 0;
        asyncRxActive := false;
      }
    }

    /** `available`: the number of bytes left to read. */
    method Available() returns (n: int)
      requires Valid()
      modifies this, rxBuffer
      ensures Valid() && Unread() == old(Incoming()) && n == |Unread()|
      ensures transmitting == old(transmitting) && Pending() == old(Pending()) && txAddress == old(txAddress)
    {
      AsyncBufferUpdate();
      n := rxLength - rxIndex;
    }

    /** `receive`: the next unread byte, or 0 when none is left. */
    method Receive() returns (value: int)
      requires Valid()
      modifies this, rxBuffer
      ensures Valid()
      ensures var u := old(Incoming());
        && (u == [] ==> value == 0 && Unread() == [])
        && (u != [] ==> value == u[0] && Unread() == u[1..])
      ensures transmitting == old(transmitting) && Pending() == old(Pending()) && txAddress == old(txAddress)
    {
      AsyncBufferUpdate();
      value := 0;
      if rxIndex < rxLength {
        value := rxBuffer[rxIndex];
        rxIndex := rxIndex + 1;
      }
    }

    /**
     * `onReceiveService`: with a receive callback registered and everything read, the
     * bytes received as a slave become the unread ones and the callback is told their
     * count; otherwise they are dropped.
     */
    method OnReceiveService(inBytes: array<int>, numBytes: int)
      requires Valid() && inBytes != rxBuffer && 0 <= numBytes <= inBytes.Length && numBytes <= BUFFER_LENGTH
      modifies this, rxBuffer
      ensures Valid() && transmitting == old(transmitting) && Pending() == old(Pending()) && txAddress == old(txAddress)
      ensures asyncRxActive == old(asyncRxActive)
      ensures var taken := old(onReceiveSet && rxIndex >= rxLength);
        && (taken ==> Unread() == inBytes[..numBytes] && received == old(received) + [numBytes])
        && (!taken ==> Unread() == old(Unread()) && received == old(received))
    {
      if !onReceiveSet { return; }
      if rxIndex < rxLength { return; }
      T.Copy(rxBuffer, inBytes, numBytes);
      rxIndex := 0;
      rxLength := numBytes;
      received := received + [numBytes];
    }

    /**
     * `onRequestService`: with a request callback registered, the queue emptied and the
     * callback's `send` calls made: each the slave's reply, or, during a master write, queued.
     */
    method OnRequestService(replies: seq<seq<int>>)
      requires Valid()
      modifies this, txBuffer, twi, twi.txBuffer
      ensures Valid() && transmitting == old(transmitting) && txAddress == old(txAddress)
      ensures Unread() == old(Unread()) && asyncRxActive == old(asyncRxActive) && Settings() == old(Settings())
      ensures !onRequestSet ==> Pending() == old(Pending()) && twi.Snap() == old(twi.Snap())
      ensures onRequestSet && !transmitting ==> Pending() == [] && twi.Snap() == S.Handle(old(twi.Snap()), replies)
      ensures onRequestSet && transmitting ==> Pending() == Queue([], Flatten(replies)) && twi.Snap() == old(twi.Snap())
    {
      if !onRequestSet { return; }
      txIndex := 0;
      txLength := 0;
      if transmitting {
        QueueReplies(replies);
      } else {
        TransmitReplies(replies);
      }
    }

    /** The request callback's sends during a master write: each queued. */
    method QueueReplies(replies: seq<seq<int>>)
      requires Valid() && transmitting
      modifies this, txBuffer, twi, twi.txBuffer
      ensures Valid() && transmitting && txAddress == old(txAddress)
      ensures Unread() == old(Unread()) && asyncRxActive == old(asyncRxActive) && Settings() == old(Settings())
      ensures Pending() == Queue(old(Pending()), Flatten(replies)) && twi.Snap() == old(twi.Snap())
    {
      var k := 0;
      while k < |replies|
        invariant 0 <= k <= |replies| && Valid() && transmitting && txAddress == old(txAddress)
        invariant Unread() == old(Unread()) && asyncRxActive == old(asyncRxActive) && Settings() == old(Settings())
        invariant Pending() == Queue(old(Pending()), Flatten(replies[..k])) && twi.Snap() == old(twi.Snap())
      {
        var c := replies[k];
        var a := new int[|c|](i requires 0 <= i < |c| => c[i]);
        assert a[..|c|] == c;
        SendBytes(a, |c|);
        QueueAppend(old(Pending()), Flatten(replies[..k]), c);
        FlattenSnoc(replies, k);
        k := k + 1;
      }
      assert replies[..|replies|] == replies;
    }

    /** The request callback's sends as a slave: each the reply, through `twi_transmit`. */
    method TransmitReplies(replies: seq<seq<int>>)
      requires Valid() && !transmitting
      modifies this, txBuffer, twi, twi.txBuffer
      ensures Valid() && !transmitting && txAddress == old(txAddress)
      ensures Unread() == old(Unread()) && asyncRxActive == old(asyncRxActive) && Settings() == old(Settings())
      ensures Pending() == old(Pending()) && twi.Snap() == S.Handle(old(twi.Snap()), replies)
    {
      var k := 0;
      while k < |replies|
        invariant 0 <= k <= |replies| && Valid() && !transmitting && txAddress == old(txAddress)
        invariant Unread() == old(Unread()) && asyncRxActive == old(asyncRxActive) && Settings() == old(Settings())
        invariant Pending() == old(Pending()) && S.Handle(twi.Snap(), replies[k..]) == S.Handle(old(twi.Snap()), replies)
      {
        var c := replies[k];
        var a := new int[|c|](i requires 0 <= i < |c| => c[i]);
        assert a[..|c|] == c;
        ghost var t := twi.Snap();
        SendBytes(a, |c|);
        assert replies[k..][0] == c && replies[k..][1..] == replies[k + 1..];
        assert S.Handle(t, replies[k..]) == S.Handle(twi.Snap(), replies[k + 1..]);
        k := k + 1;
      }
    }

    /**
     * `ISR(TWI_vect)` with this object's services attached, as `begin(address)` attaches
     * them: the driver's step for the interrupt, the request service run while it is
     * addressed as a slave transmitter, and the receive service on a slave STOP.
     */
    method Interrupt(irq: S.Irq, replies: seq<seq<int>>)
      requires Valid()
      modifies this, rxBuffer, txBuffer, twi, twi.masterBuffer, twi.txBuffer, twi.rxBuffer
      ensures Valid()
      ensures twi.Snap() == S.Isr(old(twi.Snap()), irq, old(Calls(replies))).0
      ensures var d := S.Isr(old(twi.Snap()), irq, []).1;
        d.Some? && old(onReceiveSet && rxIndex >= rxLength) ==> Unread() == d.value
    {
      if irq.status == TW_ST_SLA_ACK || irq.status == TW_ST_ARB_LOST_SLA_ACK {
        ServeRequest(replies);
      } else {
        var d := twi.Isr(irq, []);
        if d.Some? {
          OnReceiveService(twi.rxBuffer, twi.rxIndex);
        }
      }
    }

    /** Addressed as a slave transmitter: the driver's reply filled by the request service. */
    method ServeRequest(replies: seq<seq<int>>)
      requires Valid()
      modifies this, txBuffer, twi, twi.txBuffer
      ensures Valid() && twi.Snap() == S.SlaveRequested(old(twi.Snap()), old(Calls(replies)))
    {
      ghost var t := twi.Snap();
      ghost var calls := Calls(replies);
      S.IsrKeepsValid(t, S.Irq(TW_ST_SLA_ACK, 0), calls);
      twi.BeginSlaveTransmit();
      ghost var u := twi.Snap();
      OnRequestService(replies);
      assert twi.Snap() == S.Handle(u, calls);
      twi.FinishSlaveTransmit();
    }

    /** The registrations of the user's callbacks, and what the receive callback was told. */
    function Settings(): (bool, bool, seq<int>)
      reads this
    {
      (onReceiveSet, onRequestSet, received)
    }

    /** The `twi_transmit` calls a request makes of the driver: the callback's sends, unless none is registered or they go to a master write. */
    function Calls(replies: seq<seq<int>>): seq<seq<int>>
      reads this
    {
      if onRequestSet && !transmitting then replies else []
    }
  }

  /** The bytes of the first k + 1 replies: those of the first k, then the next reply's. */
  lemma FlattenSnoc(replies: seq<seq<int>>, k: int)
    requires 0 <= k < |replies|
    ensures Flatten(replies[..k + 1]) == Flatten(replies[..k]) + replies[k]
  {
    assert replies[..k + 1] == replies[..k] + [replies[k]];
    FlattenAppend(replies[..k], [replies[k]]);
    assert Flatten([replies[k]]) == replies[k] + Flatten([]);
  }

  lemma {:induction false} FlattenAppend(a: seq<seq<int>>, b: seq<seq<int>>)
    ensures Flatten(a + b) == Flatten(a) + Flatten(b)
    decreases |a|
  {
    if a == [] {
      assert a + b == b;
    } else {
      FlattenAppend(a[1..], b);
      assert (a + b)[0] == a[0] && (a + b)[1..] == a[1..] + b;
    }
  }
}
