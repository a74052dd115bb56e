# haworkslibs in Dafny

A model of the core of haworkslibs, a set of Arduino (AVR) libraries for home-automation sensors, with proofs about that model. The model covers:

- **I2C/TWI bus drivers.**
  - `TWISlave` is an interrupt-driven slave responder.
  - `TWIMaster` is a polling master that saves and restores the peripheral's registers.
  - `extended_twi.c` and `ExtendedWire.cpp` form the older interrupt-driven master and slave engine, with its Wire-style buffer API.
- **Fixed-point numbers** (`FixNum`):
  - saturating rescaling and narrowing;
  - validity, floor, comparisons and arithmetic;
  - the character-at-a-time parser;
  - the decimal formatter;
  - the format-template scanner.
- **Sensor and RTC drivers.**
  - DS3231: BCD and calendar arithmetic, `DateTime`, and the temperature oversampling queue.
  - SHT1X: the Sensirion CRC-8 and the measurement state machine.
  - HIH and HIH6120: 14-bit word unpacking and the retry logic.
  - DS18B20: queue averaging.
  - Humidity: the water-vapour-pressure table interpolation.
- **Small utilities:** `Timeout` (wrap-around-safe deadlines), `Uptime`, `Button` (debounce) and `BlinkLed`.

The peripheral's registers TWCR, TWDR, TWAR, TWBR and TWSR are fields of `Avr.Twi`:

- The bus is an oracle fixed in advance.
- Each hardware wait, and each interrupt, is one method call that takes the next status byte from the oracle.
- A ghost log records every operation a driver starts.
- The status codes are those of avr-libc's `util/twi.h`.

The model represents the environment as follows:

- `millis()`, pin reads and pin writes are parameters and results.
- The I2C transactions of the sensor drivers, and the OneWire calls of DS18B20, are parameters that give the status and the bytes of the transaction.
- The blocking master calls of the extended TWI library (`twi_readFrom*`, `twi_writeTo`) are modelled as follows:
  - the driver starts the transfer;
  - the interrupt steps then run it to completion;
  - the result is read back.
- C integer widths, casts and truncating division are explicit (`CInt`).
- Bytes are `bv8`.

Two behaviours of the code shape the model:

- The waits of `TWIMaster` are unbounded loops on TWINT and TWSTO (TWIMaster/TWIMaster.cpp:14-15, TWIMaster/TWIMaster.cpp:71-72). There is no time-out, so the model assumes every started operation completes.
- `TWIMaster` saves TWCR, TWBR and TWSR in its constructor (TWIMaster/TWIMaster.cpp:22-39) and restores them in its destructor (TWIMaster/TWIMaster.cpp:41-49), not at the first `start()`.

## Model

| member | source | states |
|---|---|---|
| Timeout.Diff | Timeout/Timeout.cpp:7 | the `long` reading of `_time - millis()`: the signed 32-bit value congruent to the difference modulo 2^32 |
| Timeout.Deadline | Timeout/Timeout.cpp:24-30 | the deadline `reset` stores is never 0 and is congruent to `millis() + interval` with a negative interval taken as 0, or is 1 when that sum wraps to 0 |
| Timeout.RemainingAt | Timeout/Timeout.cpp:14-22 | the remaining time is never negative; it is 0 exactly when disabled or due; otherwise it is the signed difference |
| Timeout.DueAfter | Timeout/Timeout.cpp:3-12 | `e` ms after a reset the signed difference is `interval - e` (one more when the deadline was bumped from 0); the timeout fires once `e > interval` and not while `e < interval`, wherever `millis()` wraps |
| Timeout.Timeout.constructor | Timeout/Timeout.h:50 | a timeout starts disabled (`_time == 0`, the zeroed static object) |
| Timeout.Timeout.Start | Timeout/Timeout.h:52-54 | the interval constructor stores the `reset` deadline |
| Timeout.Timeout.Disable | Timeout/Timeout.h:60-62 | after `disable` the timeout is not enabled |
| Timeout.Timeout.Reset | Timeout/Timeout.cpp:24-30 | after `reset` the timeout is enabled and holds `Deadline(interval, now)` |
| Timeout.Timeout.Check | Timeout/Timeout.cpp:3-12 | `check` returns true exactly when enabled and due, and then disables itself, so it fires at most once per reset; otherwise nothing changes |
| Timeout.Timeout.Remaining | Timeout/Timeout.cpp:14-22 | `remaining` returns `RemainingAt` of the stored deadline and changes nothing |
| Uptime.AdvancedWholeDays | Uptime/Uptime.cpp:10-13 | the loop advances `daystart` by whole days, one day per `updays` increment, and stops with at most one day (`DAY_LENGTH_MS`) elapsed |
| Uptime.AdvanceClosedForm | Uptime/Uptime.cpp:10-13 | the number of days the loop adds is 0 up to one full day and `(e - 1) / DAY_LENGTH_MS` beyond |
| Uptime.Pack | Uptime/Uptime.cpp:21 | the packed result fits in a 32-bit `long` |
| Uptime.DayFields | Uptime/Uptime.cpp:15-20 | seconds and minutes are below 60, hours at most 24, and together they are the elapsed milliseconds truncated to whole seconds |
| Uptime.PackFields | Uptime/Uptime.cpp:21 | for up to 2147 days the result reads back as DD·10^6 + HH·10^4 + MM·100 + SS |
| Uptime.Decode | Uptime/Uptime.cpp:21 | two-digit fields below 100 are recovered from the packed decimal |
| Uptime.FullDayShowsHour24 | Uptime/Uptime.cpp:10 | exactly one day elapsed shows as hour 24 (packed 240000), because the loop test is strict |
| Uptime.StepElapsed | Uptime/Uptime.cpp:10-11 | advancing `daystart` by one day decreases the unsigned elapsed time by exactly one day |
| Uptime.Uptime.constructor | Uptime/Uptime.cpp:5-6 | `daystart` and `updays` start at 0 |
| Uptime.Uptime.Uptime | Uptime/Uptime.cpp:8-22 | `uptime` advances `daystart`/`updays` by `Advance` whole days (`updays` as a 16-bit `int`), leaves at most one day elapsed and returns the packed DDHHMMSS of the remainder |
| Uptime.Uptime.SkipDays | Uptime/Uptime.cpp:10-13 | the `while` loop's effect: `Advance(e)` days added, `AdvancedMs(e)` ms skipped, at most one day left |
| Uptime.Uptime.NextDay | Uptime/Uptime.cpp:11-12 | one loop iteration adds one day to `daystart` and one to `updays` |
| Uptime.Format | Uptime/Uptime.cpp:14-21 | the splitting into seconds, minutes and hours computes `Pack` |
| BlinkLed.Elapsed | BlinkLed/BlinkLed.cpp:11 | `now - _time` in `unsigned long`: the 32-bit value congruent to the difference |
| BlinkLed.ElapsedAcrossWrap | BlinkLed/BlinkLed.cpp:11 | `e` ms after `_time` the unsigned difference is `e` even across the wrap, so the LED toggles exactly when `e > interval` |
| BlinkLed.BlinkLed.constructor | BlinkLed/BlinkLed.cpp:3-7 | a new LED records its pin, with the state off and the time 0 |
| BlinkLed.BlinkLed.Blink | BlinkLed/BlinkLed.cpp:9-16 | `blink` toggles the state, records `now` and drives the pin to the new state exactly when more than `interval` ms have passed, and otherwise changes nothing |
| BlinkLed.BlinkLed.Off | BlinkLed/BlinkLed.cpp:18-22 | `off` clears the state, records `now` and drives the pin low |
| Button.Stored | Button/Button.cpp:13-24 | the `bool` reading stored into the `State` enum is never DOWN, and is UP exactly when released |
| Button.Intended | Button/Button.h:65-67 | the evidently intended stored state: DOWN exactly when pressed, UP exactly when released |
| Button.PressNeverShows | Button/Button.h:65-67 | as written a pressed button is stored as DEBOUNCE, so `operator bool` never holds; under the intended mapping it holds exactly when pressed |
| Button.Button.constructor | Button/Button.cpp:5-10 | a new button is UP with its debounce timer disabled |
| Button.Button.Check | Button/Button.cpp:12-26 | `check` disables the timer and returns false when the reading equals the state; arms a 50 ms timer on the first differing reading; flips the state and returns true only when the timer fires while the reading still differs; `operator bool` never becomes true |
| Button.Button.CheckIntended | Button/Button.cpp:12-26 | the same debounce with the intended state mapping: after a change `operator bool` holds exactly when the pin reads pressed |
| CInt.ToUInt8 | HIH6120/HIH6120.cpp:42 | conversion to `uint8_t` gives the 8-bit value congruent to its argument, and keeps a value already in range |
| CInt.ToInt8 | FixNum/utility/FixNumUtil.h:140-145 | conversion to `int8_t` gives the value in [-128, 127] congruent modulo 2^8, and keeps a value already in range |
| CInt.ToUInt16 | HIH/HIH.cpp:21-25 | conversion to `uint16_t` gives the 16-bit value congruent to its argument, and keeps a value already in range |
| CInt.ToInt16 | DS18B20/DS18B20.cpp:103-118 | conversion to a 16-bit `int` gives the value in [-32768, 32767] congruent modulo 2^16, and keeps a value already in range |
| CInt.ToUInt32 | BlinkLed/BlinkLed.cpp:11 | conversion to `unsigned long` gives the 32-bit value congruent to its argument, and keeps a value already in range |
| CInt.ToInt32 | Humidity/Humidity.cpp:94-109 | conversion to `long` gives the value in the 32-bit signed range congruent modulo 2^32, and keeps a value already in range |
| CInt.Div | DS18B20/DS18B20.cpp:118 | C's `/` truncates toward zero: the magnitude of the quotient is the floor of the magnitudes' quotient, with the sign of the operands' product |
| CInt.Rem | FixNum/utility/FixNumUtil.h:160-170 | C's `%` is what `/` leaves, smaller than the divisor in magnitude, with the sign of the dividend |
| Avr.Status | TWIMaster/TWIMaster.cpp:16 | `TW_STATUS` clears the prescaler bits and never grows the register value |
| Avr.Settle | TWIMaster/TWIMaster.cpp:14-16 | after a completion TWSR keeps its prescaler bits and reports the bus's status |
| Avr.Twi.Complete | TWIMaster/TWIMaster.cpp:14-16 | a completion logs the operation, sets TWINT, reports the next bus status in TWSR and the bus byte in TWDR, and leaves TWAR and TWBR |
| Avr.Twi.StopSent | TWIMaster/TWIMaster.cpp:71-72 | a sent STOP logs the operation and clears TWSTO, reporting nothing |
| Uptime.StepDayStart | Uptime/Uptime.cpp:10-11 | adding a day to the wrapped day start wraps the exact sum |
| Uptime.StepDays | Uptime/Uptime.cpp:10-13 | counting a day on the wrapped 16-bit day count wraps the exact count |
| Timeout.Int32Unique | Timeout/Timeout.cpp:3-12 | a value in the `long` range is the only one congruent to x modulo 2^32, so it is the conversion of x |
| TwiSlave.StartStep | TWISlave/TWISlave.cpp:24-28 | `start` keeps the buffer descriptor valid (it zeroes both counters) |
| TwiSlave.Notify | TWISlave/TWISlave.cpp:81 | a callback is recorded with its arguments, may replace only the descriptor, and leaves memory, TWCR, TWDR and the done count alone; a client that answers with buffers inside memory keeps the descriptor valid |
| TwiSlave.NackIfDoneStep | TWISlave/TWISlave.cpp:36-39 | `nackIfDone` changes TWCR only |
| TwiSlave.ReceiveByteStep | TWISlave/TWISlave.cpp:41-53 | `receiveByte` keeps the descriptor valid and does not touch callbacks or TWCR |
| TwiSlave.TransmitByteStep | TWISlave/TWISlave.cpp:55-68 | `transmitByte` keeps the descriptor valid and leaves memory, callbacks and TWCR alone |
| TwiSlave.Refill | TWISlave/TWISlave.cpp:86-87 | asking for more buffer leaves memory and the done count alone and keeps the descriptor valid |
| TwiSlave.Finish | TWISlave/TWISlave.cpp:97-98 | the end-of-transfer callback reports the done count with `more == false` and leaves memory alone |
| TwiSlave.DataAck | TWISlave/TWISlave.cpp:84-89 | a data-ACK event keeps the descriptor valid and the memory size |
| TwiSlave.Dispatch | TWISlave/TWISlave.cpp:77-130 | every status keeps the descriptor valid and the memory size |
| TwiSlave.OnReceive | TWISlave/TWISlave.cpp:79-99 | the receiver cases keep the descriptor valid |
| TwiSlave.OnTransmit | TWISlave/TWISlave.cpp:101-118 | the transmitter cases keep the descriptor valid |
| TwiSlave.Interrupt | TWISlave/TWISlave.cpp:70-132 | every interrupt keeps the descriptor valid (so `_done_size` never exceeds 255 and the buffer stays in memory) and ends with TWINT set |
| TwiSlave.ReceiveByteStores | TWISlave/TWISlave.cpp:41-53 | while `_rem_size > 0 && _done_size < 255` the byte in TWDR is stored at `_buf`, rem drops by 1 and done grows by 1; otherwise nothing changes; no other memory cell changes |
| TwiSlave.TransmitByteLoads | TWISlave/TWISlave.cpp:55-68 | under the same guard the next buffer byte goes to TWDR and the counters advance; otherwise TWDR becomes 0 and the counters stay |
| TwiSlave.NackIfDoneClears | TWISlave/TWISlave.cpp:36-39 | TWEA is cleared exactly when rem is 0 or done is 255; otherwise TWCR is unchanged; no other bit and nothing else changes |
| TwiSlave.AddressMatch | TWISlave/TWISlave.cpp:79-83 | SR_SLA_ACK resets the counters and asks the receive callback for a first buffer with (0, true); with no buffer offered the slave NACKs |
| TwiSlave.AddressMatchTransmit | TWISlave/TWISlave.cpp:101-110 | ST_SLA_ACK asks the transmit callback for the first buffer with (0, true) and then sends its first byte in the same interrupt, or 0 when it offered none |
| TwiSlave.FurtherChunkOnlyWhenEmpty | TWISlave/TWISlave.cpp:84-89 | after a data ACK the callback is asked for more (with the done count and `more == true`) exactly when rem reached 0 and `_more` is set; otherwise no callback happens |
| TwiSlave.TransferEnd | TWISlave/TWISlave.cpp:90-99 | SR_DATA_NACK (after storing the final byte if there is room), SR_STOP, ST_DATA_NACK and ST_LAST_DATA report the done count with `more == false` and set TWEA and TWINT |
| TwiSlave.BusErrorRecovers | TWISlave/TWISlave.cpp:119-124 | a bus error only sets TWEA, TWSTO and TWINT |
| TwiSlave.ReceiveAll | TWISlave/TWISlave.cpp:84-89 | a run of data-ACK interrupts keeps the descriptor valid |
| TwiSlave.DataAckStores | TWISlave/TWISlave.cpp:84-89 | with room for more, a data-ACK interrupt stores TWDR at `_buf`, advances the descriptor and only sets TWINT |
| TwiSlave.Written | TWISlave/TWISlave.cpp:49 | writing bytes one by one keeps the memory size |
| TwiSlave.WrittenSplice | TWISlave/TWISlave.cpp:49 | the byte-by-byte writes splice the data into memory at the buffer position |
| TwiSlave.ReceiveAllWrites | TWISlave/TWISlave.cpp:84-89 | a run of data-ACK interrupts with room writes the received bytes in order at `_buf` |
| TwiSlave.ReceiveAllStores | TWISlave/TWISlave.cpp:84-89 | the bytes received land at `_buf.._buf+n` and every other memory cell is unchanged |
| TwiSlave.ReceiveAllCounts | TWISlave/TWISlave.cpp:84-89 | n received bytes advance `_buf` and done by n and decrease rem by n, with no callback |
| TwiSlave.TwiSlaveClass.constructor | TWISlave/TWISlave.cpp:13 | the singleton starts with an empty descriptor over the given registers and memory |
| TwiSlave.TwiSlaveClass.Begin | TWISlave/TWISlave.cpp:17-22 | `begin` sets TWAR to `addr << 1` and TWCR to TWINT, TWEA, TWEN and TWIE, changing no other register |
| TwiSlave.TwiSlaveClass.Start | TWISlave/TWISlave.cpp:24-28 | the fields after `start` are `StartStep` of the fields before |
| TwiSlave.TwiSlaveClass.Use | TWISlave/TWISlave.cpp:30-34 | `use` replaces exactly `_buf`, `_rem_size` and `_more` |
| TwiSlave.TwiSlaveClass.Callback | TWISlave/TWISlave.cpp:81 | a callback invocation updates the fields as `Notify` |
| TwiSlave.TwiSlaveClass.NackIfDone | TWISlave/TWISlave.cpp:36-39 | the in-place TWCR update is `NackIfDoneStep`, and no other field or register changes |
| TwiSlave.TwiSlaveClass.ReceiveByte | TWISlave/TWISlave.cpp:41-53 | the in-place update is `ReceiveByteStep` |
| TwiSlave.TwiSlaveClass.TransmitByte | TWISlave/TWISlave.cpp:55-68 | the in-place update is `TransmitByteStep` |
| TwiSlave.TwiSlaveClass.ProcessInterrupt | TWISlave/TWISlave.cpp:70-132 | the interrupt handler's effect on fields, memory and TWCR/TWDR is `Interrupt` of the status in TWSR |
| TwiSlave.TwiSlaveClass.DispatchEvent | TWISlave/TWISlave.cpp:77-130 | the `switch` is `Dispatch` |
| TwiSlave.TwiSlaveClass.OnReceiveEvent | TWISlave/TWISlave.cpp:79-99 | the receiver cases are `OnReceive` |
| TwiSlave.TwiSlaveClass.OnTransmitEvent | TWISlave/TWISlave.cpp:101-118 | the transmitter cases are `OnTransmit` |
| Avr.AddressByte | TWIMaster/TWIMaster.cpp:82 | the address byte carries the R/W bit in bit 0 and the 7-bit address above it (section 3.1.10 of the I2C-bus specification UM10204) |
| TwiMaster.WaitResult | TWIMaster/TWIMaster.cpp:13-20 | `twiWait` returns 0 exactly when the status equals the expected one; a mismatching status is returned as is, except that status 0 becomes 0xff, so an error is never 0 |
| TwiMaster.FirstFail | TWIMaster/TWIMaster.cpp:83-92 | the index of the first wait whose status is not the expected one, at most the number of waits |
| TwiMaster.Perform | TWIMaster/TWIMaster.cpp:83-92 | a sequence of waits stops after the first failure, so it performs at most one wait per expected status |
| TwiMaster.FirstFailSpec | TWIMaster/TWIMaster.cpp:86-88 | every wait before `FirstFail` saw its expected status and the one at `FirstFail` did not |
| TwiMaster.PerformFailsAt | TWIMaster/TWIMaster.cpp:86-88 | when wait k is the first to fail, the frame stops after k+1 waits and returns that wait's error |
| TwiMaster.FirstFailStep | TWIMaster/TWIMaster.cpp:86-88 | one loop step: a matching status moves past it, a mismatch ends the frame with its error |
| TwiMaster.PerformSucceeds | TWIMaster/TWIMaster.cpp:93 | when every status matches, the frame returns 0 after all its waits |
| TwiMaster.WriteExpect | TWIMaster/TWIMaster.cpp:86 | the statuses `transmit` expects: one per byte (address then n data bytes), every one TW_MT_SLA_ACK as written |
| TwiMaster.Sends | TWIMaster/TWIMaster.cpp:84-85 | each byte is sent by writing it to TWDR and TWINT with TWEN to TWCR |
| TwiMaster.ReadAck | TWIMaster/TWIMaster.cpp:109 | the receiver ACKs (TWEA) every byte but the last and NACKs the last (section 3.1.6 of UM10204) |
| TwiMaster.DataExpect | TWIMaster/TWIMaster.cpp:111 | one expected status per byte read |
| TwiMaster.DataReads | TWIMaster/TWIMaster.cpp:108-115 | one TWCR command per byte read |
| TwiMaster.DataReadsNext | TWIMaster/TWIMaster.cpp:108-115 | byte j is requested with TWEA exactly when it is not the last, and expects TW_MR_DATA_ACK before the last byte and TW_MR_DATA_NACK on it |
| TwiMaster.Got | TWIMaster/TWIMaster.cpp:112-114 | the number of bytes stored: all n on success, one fewer than the waits performed on failure |
| TwiMaster.Fill | TWIMaster/TWIMaster.cpp:114 | storing bytes keeps the buffer size |
| TwiMaster.FillNext | TWIMaster/TWIMaster.cpp:114 | the next byte received is stored at the next buffer position |
| TwiMaster.TwiWait | TWIMaster/TWIMaster.cpp:13-20 | a wait completes one bus event, logs the command that started it, and returns `WaitResult` of the status against the expected one |
| TwiMaster.Master.constructor | TWIMaster/TWIMaster.cpp:22-39 | the constructor saves TWCR, TWBR and TWSR, then sets TWCR to 0, TWBR to the low byte and TWSR to the high byte of `speed`, and is not active |
| TwiMaster.Master.Close | TWIMaster/TWIMaster.cpp:41-53 | the destructor stops an active transfer, restores TWBR and TWSR exactly, and sets TWCR to TWINT plus only the saved TWEN, TWIE and TWEA bits |
| TwiMaster.Master.Start | TWIMaster/TWIMaster.cpp:56-63 | `start` issues START and expects TW_REP_START when already active and TW_START otherwise; it becomes active only on success |
| TwiMaster.Master.Stop | TWIMaster/TWIMaster.cpp:65-74 | `stop` does nothing when inactive; otherwise it issues STO, and in both cases it ends inactive |
| TwiMaster.Master.Transmit | TWIMaster/TWIMaster.cpp:77-94 | `transmit` starts, then sends `addr << 1` with the W bit and the n bytes in order, each checked against TW_MT_SLA_ACK, returning the first failing wait's code, or 0; it issues no STOP and leaves `_active` as it was when START fails |
| TwiMaster.Master.TransmitChecked | TWIMaster/TWIMaster.cpp:86 | the evidently intended `transmit`: identical except that data bytes expect TW_MT_DATA_ACK |
| TwiMaster.Master.Receive | TWIMaster/TWIMaster.cpp:97-117 | `receive` starts, sends `addr << 1` with the R bit expecting TW_MR_SLA_ACK, then fills `buf[0..n)` in order, ACKing all bytes but the last; the buffer is untouched when START or the address fails; it issues no STOP |
| TwiMaster.WriteFrame | TWIMaster/TWIMaster.cpp:82-93 | the write loop performs the address and data waits and logs exactly the bytes sent up to the first failure |
| TwiMaster.ReadByte | TWIMaster/TWIMaster.cpp:109-114 | one read step issues its command with the right ACK bit and either moves on or ends the frame with its error |
| TwiMaster.ReadData | TWIMaster/TWIMaster.cpp:108-116 | the read loop performs the data waits, logs the commands and stores the bytes received before the first failure |
| TwiMaster.TransmitRejectsDataAck | TWIMaster/TWIMaster.cpp:86 | as written, a data byte acknowledged with TW_MT_DATA_ACK (0x28) makes `transmit` fail with 0x28 |
| TwiMaster.TransmitCheckedAcceptsAcks | TWIMaster/TWIMaster.cpp:86 | with the intended check, an address ACK followed by data ACKs makes the whole frame succeed |
| TwiMaster.ReadFrame | TWIMaster/TWIMaster.cpp:100-115 | the frames of `receive` after the START: the address with the read bit, the slave's answer and, when it acknowledges, the data bytes stored as `ReadData` states |
| TwiMaster.ReadInto | TWIMaster/TWIMaster.cpp:108-114 | one pass of the read loop: ACK for all but the last byte; the byte is stored at its place when its status is the expected one |
| FixNumUtil.Cast | FixNum/utility/FixNumUtil.h:141 | a C cast into a supported type: the result is in the type's range and equals the value when it already fits |
| FixNumUtil.LimitsShape | FixNum/utility/FixNumUtil.h:28-52 | the signed limits are symmetric (min = -max, one above the type's minimum), `uint8_t` spans 0..255, and every max is the type's maximum |
| FixNumUtil.Multiplier | FixNum/utility/FixNumUtil.h:16-24 | the multiplier for precision p is 10^p, p = 0..6 |
| FixNumUtil.Common | FixNum/utility/FixNumUtil.h:56-76 | the common type of a pair can represent both argument types' ranges and both FixNum limit ranges |
| FixNumUtil.CommonSymmetric | FixNum/utility/FixNumUtil.h:56-76 | the common type does not depend on the order of the pair |
| FixNumUtil.MaxPrec | FixNum/utility/FixNumUtil.h:80-136 | the 49-entry `Max` table gives the larger of the two precisions in every case |
| FixNumUtil.Narrow | FixNum/utility/FixNumUtil.h:140-145 | `narrow` returns x unchanged when it fits the target type, and otherwise saturates to the target's min or max by the sign of x; the result always fits |
| FixNumUtil.ScaleUp | FixNum/utility/FixNumUtil.h:149-158 | `scaleUp` keeps its result within [minValue, maxValue] and is the identity when no step is taken |
| FixNumUtil.ScaleUpIsClampedProduct | FixNum/utility/FixNumUtil.h:149-158 | multiplying by ten step by step with saturation equals clamping x·10^(prec2-prec1) to [minValue, maxValue] |
| FixNumUtil.StepBounds | FixNum/utility/FixNumUtil.h:151-155 | the guards `x > maxValue/10` and `x < minValue/10` are exactly the cases where `x * 10` leaves the limits |
| FixNumUtil.RoundDiv10Nearest | FixNum/utility/FixNumUtil.h:162-167 | one `scaleDown` step divides by ten rounding to nearest with ties away from zero, never grows the magnitude and keeps the sign |
| FixNumUtil.ScaleDown | FixNum/utility/FixNumUtil.h:160-170 | `scaleDown` never grows the magnitude and keeps non-negative values non-negative |
| FixNumUtil.ScaleDownOfProduct | FixNum/utility/FixNumUtil.h:160-170 | scaling down an exact multiple of 10^k by k steps recovers the quotient |
| FixNumUtil.RoundDiv10OfTen | FixNum/utility/FixNumUtil.h:162-167 | one step applied to a multiple of ten is exact |
| FixNumUtil.ScaleRoundTrip | FixNum/utility/FixNumUtil.h:172-178 | `scale` up then back down returns x when the scaled value fits |
| FixNumUtil.Convert | FixNum/utility/FixNumUtil.h:182-186 | `convert` always yields a value of the target type |
| FixNumUtil.ConvertSamePrecision | FixNum/utility/FixNumUtil.h:182-186 | at equal precisions `convert` is `narrow`: x when it fits, otherwise the saturated limit by sign |
| FixNumUtil.ConvertRoundTrip | FixNum/utility/FixNumUtil.h:182-186 | converting to a finer precision and back is the identity when the scaled value fits |
| FixNumUtil.ConvertUpExact | FixNum/utility/FixNumUtil.h:182-186 | converting to a finer precision multiplies exactly by 10^(prec2-prec1) when that fits |
| FixNumUtil.ConvertDownExact | FixNum/utility/FixNumUtil.h:182-186 | converting an exact multiple to a coarser precision divides it exactly |
| FixNumUtil.MinValue | FixNum/utility/FixNumUtil.h:28-51 | the definition of `Limits<T>::minValue`: 0 for uint8_t, otherwise one above the type's minimum |
| FixNumUtil.MaxValue | FixNum/utility/FixNumUtil.h:28-51 | the definition of `Limits<T>::maxValue`, which also marks an invalid number |
| FixNumUtil.RoundDiv10 | FixNum/utility/FixNumUtil.h:160-170 | the definition of one pass of `scaleDown`: divide by ten, rounding half away from zero |
| FixNumUtil.Scale | FixNum/utility/FixNumUtil.h:172-177 | the definition of `scale`: `scaleUp` or `scaleDown` by the direction of the precision change |
| FixNum.Invalid | FixNum/FixNum.h:29-33 | the default mantissa, `maxValue`, is not valid (also what `setInvalid` stores) |
| FixNum.FromInt | FixNum/FixNum.h:37 | `scale(x)` is the number x at the given precision: its mantissa is x·10^prec when that fits |
| FixNum.Floor | FixNum/FixNum.h:120-126 | `floor` returns maxValue for mantissa ≥ maxValue, minValue for mantissa ≤ minValue + multiplier − 1, and ⌊mantissa / multiplier⌋ (rounding down, also for negatives) otherwise |
| FixNum.FloorOfNegative | FixNum/FixNum.h:125 | the negative branch `(m - multiplier + 1) / multiplier` with C's truncating division is the mathematical floor |
| FixNum.FloorOfFromInt | FixNum/FixNum.h:37 | the floor of `scale(x)` is x |
| FixNum.Eq | FixNum/FixNum.h:203-209 | `==` is false when either side is invalid |
| FixNum.Ne | FixNum/FixNum.h:211-217 | `!=` is false when either side is invalid (so `a != b` is not `!(a == b)`) |
| FixNum.Lt | FixNum/FixNum.h:219-225 | `<` is false when either side is invalid |
| FixNum.Le | FixNum/FixNum.h:227-233 | `<=` is false when either side is invalid |
| FixNum.Gt | FixNum/FixNum.h:235-241 | `>` is false when either side is invalid |
| FixNum.Ge | FixNum/FixNum.h:243-249 | `>=` is false when either side is invalid |
| FixNum.AlignIsClamped | FixNum/FixNum.h:206-208 | aligning a valid mantissa to the common precision in the common type is the exact scaled value clamped by `scaleUp`'s saturation, and the mantissa itself at its own precision |
| FixNum.ClampAgainstInterior | FixNum/FixNum.h:208 | comparing a saturated value with a valid (interior) one gives the same answer as comparing the unsaturated value |
| FixNum.CompareIsExact | FixNum/FixNum.h:203-249 | for valid operands all six comparisons agree with comparing the exact values at the common precision, despite the saturation in `scaleUp` |
| FixNum.Add | FixNum/FixNum.h:253-259 | `+` has the common type and the larger precision, and is invalid when either operand is invalid |
| FixNum.Sub | FixNum/FixNum.h:261-267 | `-` has the common type and the larger precision, and is invalid when either operand is invalid |
| FixNum.AddSubExact | FixNum/FixNum.h:253-267 | for valid operands whose aligned values fit, `+` and `-` compute the exact sum and difference at the common precision when it fits the common type |
| FixNum.Mul | FixNum/FixNum.h:269-275 | `*` has the common type and precision prec1 + prec2, is invalid when either operand is invalid, and is the product of the mantissas when that fits |
| FixNum.Quot | FixNum/FixNum.h:277-283 | `/` has the common type and the larger precision p0, and is invalid when either operand is invalid |
| FixNum.QuotExact | FixNum/FixNum.h:282 | the quotient's mantissa is the dividend scaled to p0 + prec2 divided by the divisor's mantissa, truncated toward zero (|q|·|d| ≤ |n| < (|q|+1)·|d|) |
| FixNum.QuotIsDiv | FixNum/FixNum.h:282 | the quotient's mantissa is C's truncating division of the scaled dividend by the divisor |
| FixNum.QuotientFits | FixNum/FixNum.h:282 | the quotient of an in-limits dividend by a non-zero divisor fits the common type |
| FixNum.QuotientSmaller | FixNum/FixNum.h:282 | truncating division never grows the magnitude |
| FixNum.ConvertTo | FixNum/FixNum.h:146-148 | a cast between FixNum types yields the target type and precision |
| FixNum.ConvertToRoundTrip | FixNum/FixNum.h:146-148 | casting to a finer precision and back returns the same number when the scaled value fits |
| FixNum.WideningForgetsInvalid | FixNum/FixNum.h:146-148 | the invalid `fixnum16_1` widened to `fixnum32_1` becomes the valid value 3276.7 |
| FixNum.TypedefMultiplierFits | FixNum/FixNum.h:30 | for every declared typedef the constant `multiplier` of type T is exactly 10^prec |
| FixNum.Sum | FixNum/FixNum.h:253-267 | the definition of `+` and `-`: both operands aligned to the common type and the larger precision, then added or subtracted with saturation |
| FixNum.QuotMantissa | FixNum/FixNum.h:277-283 | for valid operands and a non-zero divisor the quotient's mantissa is the aligned dividend divided by the divisor's mantissa, cast to the common type |
| FixNum.AlignedQuotient | FixNum/FixNum.h:282 | dividing an aligned operand that did not saturate needs no cast back into the type |
| FixNumParse.StepSane | FixNum/FixNum.h:156-194 | every parser step keeps the state sane: a non-negative mantissa within the type's limits and at most 6 fractional digits |
| FixNumParse.StepResults | FixNum/FixNum.h:156-194 | in START exactly '+', '-', '.' and digits start a number and anything else returns BAD without changing state; after START, a result other than NUM returns to START and is DONE exactly when a digit was seen; a 7th fractional digit ends the number |
| FixNumParse.FeedAppend | FixNum/FixNum.h:156 | feeding characters one call at a time composes: feeding `a + b` is feeding `a` then `b` |
| FixNumParse.FeedDigits | FixNum/FixNum.h:175-187 | a run of digits that does not saturate accumulates their decimal value into the mantissa, each fractional digit adding one to the precision |
| FixNumParse.ParseInteger | FixNum/FixNum.h:158-193 | an optional sign and an integer followed by a non-digit parse to that integer with its sign, and the terminator returns DONE |
| FixNumParse.IntegerPrefix | FixNum/FixNum.h:158-187 | an optional sign and integer digits all return NUM and leave the integer's value in the mantissa |
| FixNumParse.ParseDecimal | FixNum/FixNum.h:158-193 | sign, integer part, '.' and up to 6 fractional digits parse to mantissa = all digits' value with precision = number of fractional digits; the next non-digit (or a 7th digit) returns DONE |
| FixNumParse.ParseFraction | FixNum/FixNum.h:169-187 | a '.' in the integer part switches to the fraction, whose digits extend the mantissa and the precision |
| FixNumParse.FeedSane | FixNum/FixNum.h:156-194 | any character sequence keeps the parser state sane |
| FixNumParse.ToFixNum | FixNum/FixNum.h:196-199 | the conversion of the parsed number yields the requested type and precision, within the type's range |
| FixNumParse.ToFixNumExact | FixNum/FixNum.h:196-199 | converting a parse of a signed type to its own type and precision gives the signed mantissa |
| FixNumParse.ParseExamples | FixNum/FixNum.h:156-199 | "-12.5" parses to mantissa 125 with precision 1 and sign, converts to -12.5, and the next ';' returns DONE |
| FixNumParse.ParseUnsignedExample | FixNum/FixNum.h:197 | a `uint8_t` parser given "-5" yields 251: the negation wraps in `uint8_t` |
| FixNumParse.FixNumParser.constructor | FixNum/FixNum.h:92-116 | a parser starts in START with a sane state |
| FixNumParse.FixNumParser.Reset | FixNum/FixNum.h:152-154 | `reset` only sets the state to START |
| FixNumParse.FixNumParser.Parse | FixNum/FixNum.h:156-194 | `parse` updates the fields and returns the result as `ParseStep` |
| FixNumFormat.Shown | FixNum/FixNum.h:129 | the mantissa rescaled to the format's precision stays within the type's limits |
| FixNumFormat.FormatNumber | FixNum/FixNum.h:128-130 | `format` writes exactly the `size`-character field (the decimal layout when valid, the '?' layout when not) and nothing outside it, and returns its content size |
| FixNumFormat.FieldLength | FixNum/FixNum.h:128-130 | the field is exactly `size` characters and the returned size is at most `size` |
| FixNumFormat.BufTextIsFieldWithoutPadding | FixNum/FixNum.h:136-144 | `Buf` clips `size` to its capacity; without FMT_RIGHT its text is the field without its right padding |
| FixNumFormat.BufShowsMantissa | FixNum/FixNum.h:136-144 | when nothing overflows, the digits of a valid number's text read back as the magnitude of its mantissa, and the text has a '-' only for a negative mantissa, exactly when `MinusShown` leaves room for it |
| FixNumFormat.BufSign | FixNum/FixNum.h:136-144 | the text of any valid number has no '-' when the value shown is non-negative; for a negative one it has a '-' exactly when FMT_SIGN is set, or zero fill is off and the digits leave room for the sign |
| FixNumFormat.Buf.constructor | FixNum/FixNum.h:136-144 | `Buf` holds the formatted text followed by a NUL within its `bufSize` array |
| FixNumFormat.FormatExamples | FixNum/FixNum.h:136-144 | 23.5 as `fixnum16_1` formats as "23.5" |
| FixNumFormat.FormatNegativeExample | FixNum/FixNum.h:136-144 | -0.5 formats as "-0.5", with a leading 0 |
| FixNumFormat.FormatInvalidExample | FixNum/FixNum.h:136-144 | an invalid `fixnum16_1` formats as "?????.?" |
| FixNumParse.ParseStep | FixNum/FixNum.h:156-194 | the definition of `parse(ch)`: the state machine START, INT_PART and FRAC_PART, with its result |
| FixNumParse.Digit | FixNum/FixNum.h:175-193 | the definition of the shared tail of INT_PART and FRAC_PART: a digit accepted while it fits, or the number ended |
| FixNumParse.End | FixNum/FixNum.h:188-193 | the definition of the end of a number: back to START, DONE when a digit was seen, BAD otherwise |
| FixNumParse.Feed | FixNum/FixNum.h:156 | the definition of the fields after one `parse` call per character |
| FixNumParse.Sane | FixNum/FixNum.h:156-194 | the invariant `StepSane` keeps: a mantissa in [0, maxValue] and at most six fraction digits |
| FmtUtil.Decode | FixNum/FmtUtil.cpp:48-54 | the format byte's fields: precision (low 4 bits, giving the position past the point), FMT_SIGN, FMT_ZERO and FMT_RIGHT |
| FmtUtil.Nines | FixNum/FmtUtil.cpp:4-8 | overflow filling turns every digit into '9' and leaves every other character |
| FmtUtil.FillOverflow | FixNum/FmtUtil.cpp:4-8 | `fillOverflow` rewrites the field in place into `Nines` of its old content and touches nothing outside it |
| FmtUtil.MoveLeft | FixNum/FmtUtil.cpp:11-16 | `moveLeft` moves the last `actualSize` characters to the start of the field and pads the rest with spaces, touching nothing outside it |
| FmtUtil.InvalidField | FixNum/FmtUtil.cpp:18-44 | the invalid field has exactly `size` characters |
| FmtUtil.FormatInvalid | FixNum/FmtUtil.cpp:18-44 | `formatInvalid` writes '.' at the point position, '+' in the leftmost position under FMT_SIGN and '?' everywhere else, and returns `size`: the zero-fill test `(!fmt & FMT_ZERO)` is always 0, so every position counts and the content is never shifted |
| FmtUtil.WriteField | FixNum/FmtUtil.cpp:53-74 | the countdown loop writes the field from the right as `Run` describes, returning the digits left over and the content size |
| FmtUtil.NextChar | FixNum/FmtUtil.cpp:57-73 | one loop iteration produces the next character to the left as `Step` describes |
| FmtUtil.FormatDecimal | FixNum/FmtUtil.cpp:47-80 | `formatDecimalT` writes exactly the `size` characters of `Formatted` and nothing outside them, and returns `FormattedSize` |
| FmtUtil.FinishCases | FixNum/FmtUtil.cpp:75-79 | after the loop, leftover digits turn the field into nines, and without FMT_RIGHT a short content is moved left and padded with spaces |
| FmtUtil.StepShape | FixNum/FmtUtil.cpp:56-74 | each iteration writes one character in front of the written suffix and counts at most one more |
| FmtUtil.RunShape | FixNum/FmtUtil.cpp:56-74 | after n iterations n characters are written, at most n counted, and the remaining value is non-negative |
| FmtUtil.RunValue | FixNum/FmtUtil.cpp:70-71 | the digits written plus the value still to write, scaled, make up |x|: no digit is lost or invented |
| FmtUtil.StepValue | FixNum/FmtUtil.cpp:70-71 | one iteration keeps the value written plus the value still to write |
| FmtUtil.DigitStep | FixNum/FmtUtil.cpp:70-71 | writing `x % 10` in front and keeping `x / 10` keeps the total value |
| FmtUtil.DigitsAppend | FixNum/FmtUtil.cpp:70 | the decimal value of concatenated text is the left part scaled plus the right part |
| FmtUtil.SpacesHaveNoDigits | FixNum/FmtUtil.cpp:15 | padding spaces carry no digits |
| FmtUtil.ShiftKeepsDigits | FixNum/FmtUtil.cpp:11-16 | moving content left over leading spaces keeps its digits and their value |
| FmtUtil.NinesValue | FixNum/FmtUtil.cpp:4-8 | the nines field keeps the digit count and reads as 10^n − 1, the largest value that fits |
| FmtUtil.StepPadding | FixNum/FmtUtil.cpp:61-68 | one iteration keeps the padding shape: once the sign has been written, only spaces follow to the left |
| FmtUtil.RunPadding | FixNum/FmtUtil.cpp:61-68 | the whole loop keeps that padding shape |
| FmtUtil.FormattedLength | FixNum/FmtUtil.cpp:47-80 | the field is exactly `size` characters and the returned size is at most `size` |
| FmtUtil.FormattedFits | FixNum/FmtUtil.cpp:47-80 | when the number fits, the field's digits read back as |x|, and the field has a '-' only for negative x, exactly when `MinusShown` holds |
| FmtUtil.FormattedOverflow | FixNum/FmtUtil.cpp:75-76 | when the number does not fit, every digit shown is '9' and the shown value is less than |x| |
| FmtUtil.RunKeepsChar | FixNum/FmtUtil.cpp:56-74 | the character written at iteration i stays at position `size - 1 - i` |
| FmtUtil.FormattedPoint | FixNum/FmtUtil.cpp:58-60 | with precision p > 0 and the field right-aligned (FMT_RIGHT or full), '.' is at p + 1 positions from the right end |
| FmtUtil.ZeroFillHasNoSign | FixNum/FmtUtil.cpp:61-73 | with FMT_ZERO and without FMT_SIGN every position holds a digit or '.', all counted |
| FmtUtil.ZeroFillDropsMinus | FixNum/FmtUtil.cpp:61-68 | with FMT_ZERO and without FMT_SIGN a negative number is shown without its '-' |
| FmtUtil.FormattedExamples | FixNum/FmtUtil.cpp:47-80 | 1234 at precision 2 is "12.34"; 5 right-aligned at precision 2 is "0.05" (leading 0); -5 is "-5 ", "-05" zero-filled with sign, "005" zero-filled without sign; 12345 in 4 characters at precision 1 overflows to "99.9"; 7 zero-filled is "07" |
| FmtUtil.LeftAligned | FixNum/FmtUtil.cpp:77-78 | without FMT_RIGHT the content is at the start of the field and the rest is spaces |
| FmtUtil.InitState | FixNum/FmtUtil.cpp:47-55 | the definition of the state before the loop: the magnitude, the sign character, no characters yet |
| FmtUtil.Step | FixNum/FmtUtil.cpp:56-74 | the definition of one pass of the loop, counted from the right end: the point, a digit, the sign or padding |
| FmtUtil.Run | FixNum/FmtUtil.cpp:56-74 | the definition of the first n passes of the loop |
| FmtUtil.Finish | FixNum/FmtUtil.cpp:75-79 | the definition of the end: nines over the digits when some remain, then the left shift unless FMT_RIGHT |
| FmtUtil.Formatted | FixNum/FmtUtil.cpp:47-80 | the definition of the field `formatDecimalT` leaves in the buffer |
| FmtUtil.FormattedSize | FixNum/FmtUtil.cpp:47-80 | the definition of the count `formatDecimalT` returns |
| FmtUtil.ShiftDown | FixNum/FmtUtil.cpp:12-13 | the first loop of `moveLeft` moves n characters down by d places and leaves the rest of the buffer |
| FmtUtil.FillSpaces | FixNum/FmtUtil.cpp:14-15 | the second loop of `moveLeft` writes spaces from lo up to hi and leaves the rest of the buffer |
| FmtUtil.ZeroStaysZero | FixNum/FmtUtil.cpp:70-71 | once the remaining value is 0 it stays 0 in every later pass |
| FmtUtil.RunNoMinus | FixNum/FmtUtil.cpp:52-68 | a non-negative value never puts a '-' in the field and its sign character is never '-' |
| FmtUtil.RunMinus | FixNum/FmtUtil.cpp:52-68 | for a negative value the sign character is '-' or ' ', and the field has the '-' exactly when it has been written, which happens exactly when zero fill is off, the value is used up and a place is left |
| FmtUtil.LastStepMinus | FixNum/FmtUtil.cpp:61-68 | the last pass leaves a '-' exactly when the last place is not the point and either FMT_SIGN is set or, without zero fill, the value was used up before it |
| FmtUtil.RunOutMinus | FixNum/FmtUtil.cpp:52-74 | after the whole loop a negative value shows its '-' exactly in the cases `MinusShown` names |
| FmtUtil.NinesKeepsMinus | FixNum/FmtUtil.cpp:75-76 | the overflow fill neither adds nor removes a '-' |
| FmtUtil.ShiftKeepsMinus | FixNum/FmtUtil.cpp:11-16 | moving the leading spaces to the end neither adds nor removes a '-' |
| FmtUtil.FinishKeepsMinus | FixNum/FmtUtil.cpp:75-79 | the overflow fill and the left shift together keep the '-' as the loop left it |
| FmtUtil.FormattedSign | FixNum/FmtUtil.cpp:47-80 | the field of a non-negative value has no '-'; a negative value shows '-' exactly when FMT_SIGN is set, or zero fill is off and its digits leave room for the sign |
| FmtUtil.FormattedZeroFillExamples | FixNum/FmtUtil.cpp:47-80 | with zero fill in three places, -5 is "-05" with FMT_SIGN and "005" without it; 7 in two places is "07" |
| FmtUtil.FormattedOverflowExample | FixNum/FmtUtil.cpp:75-76 | 12345 at two decimals in four places overflows to "99.9" |
| FmtRef.NulAfterNext | FixNum/FmtRef.cpp:3-10 | a NUL-terminated string stays terminated after skipping a non-NUL character |
| FmtRef.FindFrom | FixNum/FmtRef.cpp:3-10 | `find` returns the first position from `pos` holding `tag` or the NUL terminator |
| FmtRef.Find | FixNum/FmtRef.cpp:3-10 | the loop that walks the template returns `FindFrom` |
| FmtRef.SkipFrom | FixNum/FmtRef.cpp:14-19 | `init` stops at the first character in {NUL, '.', '+', '-', '?', digit} |
| FmtRef.ScanBody | FixNum/FmtRef.cpp:33-44 | the field scan stops within the string |
| FmtRef.BumpNext | FixNum/FmtRef.cpp:39 | each fractional digit adds one to the format byte, modulo 256 |
| FmtRef.BodyStart | FixNum/FmtRef.cpp:24-28 | the field body starts after an optional sign, still inside the string |
| FmtRef.ScanShape | FixNum/FmtRef.cpp:33-44 | the scan consumes only digits, '?' and at most one '.', stops at the first character it cannot take, and counts as fractional exactly the characters after the '.' |
| FmtRef.BumpKeepsFlags | FixNum/FmtRef.cpp:39 | up to 15 fractional digits set the precision bits to their count and leave the flag bits alone |
| FmtRef.NibbleStep | FixNum/FmtRef.cpp:39 | incrementing below a full precision nibble changes only the nibble |
| FmtRef.InitFormat | FixNum/FmtRef.cpp:12-45 | `init` sets `_pos` at the first field character; FMT_SIGN exactly for a leading '+' or '-', FMT_ZERO exactly when the first body character is '0', FMT_RIGHT exactly when it is '9', and the precision bits count the characters after the '.' |
| FmtRef.InitLayout | FixNum/FmtRef.cpp:12-45 | `_size` counts the sign and every consumed body character, so `_pos + _size` is just past the field (digits, '?' and at most one '.') |
| FmtRef.ScanField | FixNum/FmtRef.cpp:12-45 | the `init` loops compute `Init` |
| FmtRef.ScanBodyLoop | FixNum/FmtRef.cpp:33-44 | the body loop adds the consumed characters to `_size` (modulo 256) and the fractional ones to `_fmt` |
| FmtRef.FmtRef.First | FixNum/FmtRef.h:8 | `FmtRef(buf)` refers to the first field of the template |
| FmtRef.FmtRef.Next | FixNum/FmtRef.h:9 | `FmtRef(prev)` scans from `prev._pos + prev._size` |
| FmtRef.FmtRef.Tagged | FixNum/FmtRef.h:10 | `FmtRef(buf, tag)` scans from the first occurrence of `tag` |
| FmtRef.FmtRef.Assign | FixNum/FmtRef.h:12-14 | assigning a FixNum formats it into exactly `(_pos, _size, _fmt)` and changes nothing else |
| FmtRef.FmtRef.AssignInt | FixNum/FmtRef.h:16-18 | assigning an integer formats it as a precision-0 FixNum into the same field |
| FmtRef.SignedTemplateExample | FixNum/FmtRef.cpp:12-45 | "T=+00.0C" has its field at 2 with size 5, sign, zero fill and precision 1 |
| FmtRef.ChainedTemplateExample | FixNum/FmtRef.h:9 | in "99:99" the first field is (0, 2, right-aligned) and the next one, scanned from its end, is (3, 2, right-aligned) |
| FmtRef.TaggedTemplateExample | FixNum/FmtRef.h:10 | in "a=1 b=?.?" the field tagged 'b' is at 6 with size 3 and precision 1 |
| FmtRef.FractionOverflowsIntoSign | FixNum/FmtRef.cpp:39 | a 16th fractional digit carries out of the precision nibble into FMT_SIGN |
| DS3231Time.Bcd2Bin | DS3231/DS3231.cpp:144 | `bcd2bin` gives ten times the high nibble plus the low nibble, as a byte |
| DS3231Time.Bin2Bcd | DS3231/DS3231.cpp:145 | for values up to 99 `bin2bcd` puts the tens in the high nibble and the units in the low nibble |
| DS3231Time.BcdRoundTrip | DS3231/DS3231.cpp:144-145 | `bcd2bin(bin2bcd(v)) == v` for 0 ≤ v ≤ 99, and `bin2bcd(v)` is valid BCD |
| DS3231Time.BinRoundTrip | DS3231/DS3231.cpp:144-145 | every valid BCD byte decodes to at most 99 and re-encodes to itself |
| DS3231Time.MonthLength | DS3231/DS3231.cpp:37 | month lengths are 28 to 31 days, with February 29 in years divisible by 4 |
| DS3231Time.Days | DS3231/DS3231.cpp:40-47 | `date2days` returns a `uint16_t` |
| DS3231Time.YearStartClosed | DS3231/DS3231.cpp:46 | the days before year y are `365 * y + (y + 3) / 4`, one leap day for each earlier year divisible by 4 |
| DS3231Time.MonthStartClosed | DS3231/DS3231.cpp:42-45 | the days before month m are the table sum plus the leap day after February when `y % 4 == 0` |
| DS3231Time.DaysCount | DS3231/DS3231.cpp:40-47 | for a real date `date2days` is the number of days since 2000-01-01 |
| DS3231Time.MonthStartBound | DS3231/DS3231.cpp:42-43 | the table sum for m months stays below 31 per month |
| DS3231Time.Date2Days | DS3231/DS3231.cpp:40-47 | the month loop computes `Days` |
| DS3231Time.Time2Long | DS3231/DS3231.cpp:49-51 | `time2long` is ((days·24 + h)·60 + m)·60 + s as a 32-bit `long` |
| DS3231Time.Long | DS3231/DS3231.cpp:121-124 | `get` returns a 32-bit `long` |
| DS3231Time.Get | DS3231/DS3231.cpp:121-124 | `get` computes `Long` |
| DS3231Time.LongIsSeconds | DS3231/DS3231.cpp:121-124 | for a valid date-time `get` is its number of seconds since 2000-01-01 00:00:00 while that fits in a `long` |
| DS3231Time.LongWrapsIn2068 | DS3231/DS3231.cpp:49-51 | 2068-01-19 03:14:08 is 2^31 seconds after 2000 and `get` wraps to −2^31 there |
| DS3231Time.YearStartMonotone | DS3231/DS3231.cpp:46 | later years start at least 365 days per year later |
| DS3231Time.MonthStartMonotone | DS3231/DS3231.cpp:42-45 | later months start at least 28 days per month later |
| DS3231Time.YearLength | DS3231/DS3231.cpp:37 | a year has 365 days, 366 when divisible by 4 |
| DS3231Time.DayNumberInjective | DS3231/DS3231.cpp:40-47 | different dates have different day numbers |
| DS3231Time.SameYear | DS3231/DS3231.cpp:40-47 | dates with equal day numbers are in the same year |
| DS3231Time.SameMonth | DS3231/DS3231.cpp:40-47 | dates in the same year with equal day numbers are equal |
| DS3231Time.YearBounds | DS3231/DS3231.cpp:40-47 | a date's day number lies within its year |
| DS3231Time.MonthBounds | DS3231/DS3231.cpp:40-47 | a date's day of the year lies within its month |
| DS3231Time.SecondsInjective | DS3231/DS3231.cpp:121-124 | different valid date-times are different numbers of seconds |
| DS3231Time.SplitSeconds | DS3231/DS3231.cpp:65-70 | splitting t into seconds, minutes, hours and days loses nothing |
| DS3231Time.SecondsOfFields | DS3231/DS3231.cpp:64-87 | a date-time whose fields are the split of t is t seconds |
| DS3231Time.ClockFields | DS3231/DS3231.cpp:65-70 | for non-negative t the C `%` and `/` and the byte stores give the mathematical fields, with at most 24855 days |
| DS3231Time.SplitClock | DS3231/DS3231.cpp:65-70 | the clock fields of a non-negative t: seconds and minutes below 60, hours below 24, and the day count |
| DS3231Time.CountYears | DS3231/DS3231.cpp:72-77 | the year loop stops at the year containing the day (at most 179), leaving the day of that year |
| DS3231Time.CountMonths | DS3231/DS3231.cpp:78-85 | the month loop stops at the month containing the day of the year, leaving the day of that month |
| DS3231Time.FromSeconds | DS3231/DS3231.cpp:64-87 | `DateTime(long t)` gives month 1..12 and date 1..days-in-month (Feb 29 in years divisible by 4); for non-negative t it is a valid date-time exactly t seconds after 2000-01-01 |
| DS3231Time.Conv2d | DS3231/DS3231.cpp:53-58 | `conv2d` reads two digits, or one digit after a non-digit (space) |
| DS3231Time.MonthNamesParsed | DS3231/DS3231.cpp:105-114 | every three-letter month name from `__DATE__` is decoded to its month number |
| DS3231Time.FromCompiler | DS3231/DS3231.cpp:101-119 | the compiler-time constructor yields byte fields |
| DS3231Time.CompilerStrings | DS3231/DS3231.cpp:101-119 | from "Mmm DD YYYY" and "HH:MM:SS" it takes the last two year digits, the month name, the day (space-padded) and the three time fields |
| DS3231Time.CompilerExample | DS3231/DS3231.cpp:102 | "Dec 26 2009", "12:34:56" gives 09-12-26 12:34:56 |
| DS3231Time.Field | DS3231/DS3231.cpp:127 | each field is two characters |
| DS3231Time.FieldIsFormatted | DS3231/DS3231.cpp:127 | a field is `formatDecimal(v, 2, FMT_ZERO)` |
| DS3231Time.Text | DS3231/DS3231.cpp:126-139 | the buffer text is 18 characters including the NUL |
| DS3231Time.TextSeparators | DS3231/DS3231.cpp:126-139 | separators '-', '-', ' ', ':', ':' are at 2, 5, 8, 11, 14 and NUL at 17 |
| DS3231Time.TextRoundTrip | DS3231/DS3231.cpp:126-139 | with two-digit fields the text "YY-MM-DD HH:MM:SS" reads back as the six fields, zero-padded |
| DS3231Time.ReadBackAt | DS3231/DS3231.cpp:127 | a written field reads back as its value |
| DS3231Time.FieldReadBack | DS3231/DS3231.cpp:53-58 | `conv2d` of a written field is its value: formatting and `conv2d` are inverses for 0..99 |
| DS3231Time.Buf.constructor | DS3231/DS3231.cpp:126-139 | the buffer holds `Text(dt)` |
| DS3231Time.PutField | DS3231/DS3231.cpp:127-128 | writing one field and its separator changes only those three characters |
| DS3231.ClearBit6 | DS3231/DS3231.cpp:173 | masking with 0b10111111 clears bit 6 and keeps all other bits |
| DS3231.AdjustRecord | DS3231/DS3231.cpp:168-180 | the `adjust` record is 8 bytes: register 0, then BCD seconds, minutes, hours, 0 for the weekday, date, month and year |
| DS3231.DecodeRegisters | DS3231/DS3231.cpp:189-196 | decoding the seven time registers yields byte fields |
| DS3231.AdjustThenNow | DS3231/DS3231.cpp:168-197 | the registers written by `adjust` decode back through `now` to the same date-time |
| DS3231.HourRoundTrip | DS3231/DS3231.cpp:173-191 | an hour below 40 survives the bit-6 mask, BCD encoding, the `~0b11000000` mask and decoding |
| DS3231.HourBack | DS3231/DS3231.cpp:173-191 | a BCD hour register below 64 decodes to an hour that re-encodes to the same register |
| DS3231.NowThenAdjust | DS3231/DS3231.cpp:168-197 | BCD registers read by `now` and written back by `adjust` are the same registers except that the weekday becomes 0 |
| DS3231.ValidIsTwoDigits | DS3231/DS3231.cpp:168-197 | every valid date-time has two-digit fields and an hour below 40, so it round-trips through the registers |
| DS3231.ClearBit0 | DS3231/DS3231.cpp:251 | `&= 0b11111110` clears bit 0 and keeps the others |
| DS3231.SetBit5 | DS3231/DS3231.cpp:281 | `ctReg` or-ed with 0b00100000 sets bit 5 (CONV) and keeps the others |
| DS3231.DS3231.constructor | DS3231/DS3231.h:101 | a new driver has no error and has made no transfer |
| DS3231.DS3231.ReadRegister | DS3231/DS3231.cpp:151-155 | `readRegister` reads one byte at the register, records the status as the last error, and returns the byte, or 0 on error |
| DS3231.DS3231.WriteRegister | DS3231/DS3231.cpp:158-164 | `writeRegister` writes [register, value], records the status and returns whether it is 0 |
| DS3231.DS3231.Adjust | DS3231/DS3231.cpp:168-180 | `adjust` writes the BCD record, records the status and returns whether it is 0 |
| DS3231.DS3231.Now | DS3231/DS3231.cpp:183-197 | `now` reads 7 registers from register 0 and records the status; the result is `NowValue`: on an I2C error whatever bytes `DateTime()` leaves (its constructor is empty), otherwise the decoded registers |
| DS3231.DS3231.NowIntended | DS3231/DS3231.cpp:183-197 | the corrected `now`: the same transfer and status, and on an I2C error the all-zero DateTime, which is not set |
| DS3231.NowValue | DS3231/DS3231.cpp:187-196 | the definition of the as-written result: the stale bytes on an error, else the BCD-decoded seconds, minutes, hours (bits 6-7 masked), date, month and year, skipping the weekday |
| DS3231.NowIntendedValue | DS3231/DS3231.cpp:187-196 | the corrected result is never set after an error and is the decoded registers otherwise |
| DS3231.FailedNowMayLookSet | DS3231/DS3231.cpp:187-188 | after an error, the as-written result can be reported as set (stale bytes of 09-12-26 12:34:56), while the corrected one is not set |
| DS3231.DS3231.ClearINTStatus | DS3231/DS3231.cpp:246-253 | `clearINTStatus` reads the status register and, only when that read succeeds, writes it back with bit 0 cleared; it returns whether both succeeded |
| DS3231.Reading | DS3231/DS3231.cpp:350-357 | the temperature reading of `int8 msb << 2` with `lsb >> 6` or-ed in is a 10-bit signed count of quarter degrees |
| DS3231.ReadingIsSample | DS3231/DS3231.cpp:305 | a successful reading is never mistaken for NO_VAL |
| DS3231.ReadingRoundTrip | DS3231/DS3231.cpp:356 | every 10-bit value is recovered from its two register bytes |
| DS3231.AverageBetweenSamples | DS3231/DS3231.cpp:329-348 | the average, in hundredths of a degree, lies between the smallest and largest sample |
| DS3231.Temp.constructor | DS3231/DS3231.cpp:261-266 | the constructor arms the 1 s timeout, clears the queue and starts a conversion, counting one failure if that fails |
| DS3231.Temp.Clear | DS3231/DS3231.cpp:268-273 | `clear` sets every slot to NO_VAL, the size to 0 and the value invalid, keeping the write index and the failure count |
| DS3231.Temp.Fail | DS3231/DS3231.cpp:287-297 | `fail` counts failures up to FAIL_LIMIT = 3; once there, it clears the queue and returns true only if samples existed |
| DS3231.Temp.StartConversion | DS3231/DS3231.cpp:276-285 | `startConversion` reads the control register and writes it back with CONV set; a failed read or write calls `fail`; success returns false and changes nothing else |
| DS3231.Temp.ReadTemp | DS3231/DS3231.cpp:350-357 | `readTemp` reads two bytes from 0x11 and returns `Reading` of them, or NO_VAL on error |
| DS3231.Temp.Enqueue | DS3231/DS3231.cpp:310-314 | a sample is written at the index, the index wraps to 0 at 12, and the size grows up to 12 |
| DS3231.Temp.Check | DS3231/DS3231.cpp:299-321 | `check` does nothing and returns false until the timeout fires; then it re-arms 1 s, and the queue, index, size, failure count, cached value and result are those of `CheckState`, with the temperature read, the control register read and its write-back on the bus |
| DS3231.Temp.Fired | DS3231/DS3231.cpp:302-320 | after the timeout fires, the new fields and the result are `CheckState` of the old ones and the transfers' outcomes |
| DS3231.EmptyQueue | DS3231/DS3231.cpp:268-273 | with no samples every slot already holds NO_VAL |
| DS3231.ClearState | DS3231/DS3231.cpp:268-273 | `clear` leaves the invariant, no samples, and the index and failure count unchanged |
| DS3231.FailState | DS3231/DS3231.cpp:287-297 | `fail` keeps the invariant and the index; it returns true exactly when the count is at FAIL_LIMIT and samples exist; below the limit it counts one failure, at the limit it clears |
| DS3231.EnqueueState | DS3231/DS3231.cpp:307-314 | queueing a reading keeps the invariant, writes it at the old index and leaves at least one sample |
| DS3231.ConversionState | DS3231/DS3231.cpp:276-285 | `startConversion` keeps the invariant |
| DS3231.CheckState | DS3231/DS3231.cpp:302-320 | one fired check keeps the invariant |
| DS3231.CheckSucceeds | DS3231/DS3231.cpp:305-320 | a check whose read succeeds returns true; the reading is at the old index, the index wraps at 12, the size grows up to 12, the value is invalid, and the failure count is 0, or 1 when the conversion fails |
| DS3231.CheckFails | DS3231/DS3231.cpp:303-320 | a failed read counts one failure (two if the conversion fails too); within FAIL_LIMIT nothing else changes and the result is false; past it the queue is cleared, the count stays at 3, and the result says whether samples existed |
| DS3231.Checks | DS3231/DS3231.cpp:299-321 | a run of fired checks keeps the invariant |
| DS3231.FailingChecksClear | DS3231/DS3231.cpp:287-321 | after FAIL_LIMIT + 1 failed reads (fewer if failures were already counted), every slot is NO_VAL, the value is invalid and the count is FAIL_LIMIT, with the index unchanged |
| DS3231.ConversionBus | DS3231/DS3231.cpp:278-282 | `startConversion` reads the control register, and writes it back only when that read succeeds |
| DS3231.Temp.ComputeTemp | DS3231/DS3231.cpp:329-348 | `computeTemp` stores the average of the samples, dropping max and min when there are more than 2, as sum·100 / (count·4) |
| DS3231.Temp.GetTemp | DS3231/DS3231.cpp:323-327 | `getTemp` recomputes only when the cached value is invalid and samples exist, otherwise it returns the cached value |
| Oversampling.CountPositive | DS3231/DS3231.cpp:334-340 | a queue with a sample has a positive count, also after trimming |
| Oversampling.HiIsMaximum | DS3231/DS3231.cpp:337 | `hi` is the largest sample, and is INT_MIN when there is none |
| Oversampling.MinIsMinimum | DS3231/DS3231.cpp:338 | `lo` is the smallest sample, and NO_VAL when there is none |
| Oversampling.StepBounds | DS3231/DS3231.cpp:334-340 | the sum bounds carry over to one more sample |
| Oversampling.SumBetween | DS3231/DS3231.cpp:334-340 | the sum lies between `hi` plus the other samples at `lo` and `lo` plus the others at `hi` |
| Oversampling.ZeroCount | DS3231/DS3231.cpp:334-340 | without samples the sum is 0 |
| Oversampling.MinAtMostHi | DS3231/DS3231.cpp:337-338 | with a sample, `lo ≤ hi` |
| Oversampling.TrimBounds | DS3231/DS3231.cpp:341-346 | dropping `hi` and `lo` keeps the trimmed sum between count·lo and count·hi |
| Oversampling.TrimmedWithinRange | DS3231/DS3231.cpp:341-346 | the trimmed sum lies between `lo` and `hi` times the trimmed count |
| Oversampling.AverageBetween | DS3231/DS3231.cpp:347 | sum·100 / (count·k) lies between `lo`·100/k and `hi`·100/k |
| Oversampling.ScaledBetween | DS3231/DS3231.cpp:347 | the scaled truncating division keeps the bounds |
| Oversampling.EmptyTail | DS3231/DS3231.cpp:334-340 | empty (NO_VAL) slots do not affect sum, count, max or min |
| Oversampling.WindowGrows | DS3231/DS3231.cpp:310-314 | after writing at the index of a non-full queue, the occupied window is the old one plus the written slot |
| Oversampling.WindowFull | DS3231/DS3231.cpp:310-314 | in a full queue the occupied window stays all 12 slots |
| Oversampling.NewestInWindow | DS3231/DS3231.cpp:310-312 | the slot written last is in the occupied window |
| Oversampling.SumOf | DS3231/DS3231.cpp:334-340 | the definition of `sum` after the loop: the total of the samples, slots other than NO_VAL |
| Oversampling.CountOf | DS3231/DS3231.cpp:334-340 | the definition of `count` after the loop: the number of samples |
| Oversampling.HiOf | DS3231/DS3231.cpp:337 | the definition of `hi` after the loop: the maximum of the samples from INT_MIN |
| Oversampling.MinOf | DS3231/DS3231.cpp:338 | the definition of `lo` after the loop: the minimum of the samples from INT_MAX |
| Oversampling.TrimmedSum | DS3231/DS3231.cpp:341-346 | the definition of the sum that is divided: the highest and the lowest sample dropped when there are more than two |
| Oversampling.TrimmedCount | DS3231/DS3231.cpp:341-346 | the definition of the count that is divided by: two fewer when there are more than two samples |
| DS3231.Average | DS3231/DS3231.cpp:347 | the definition of the mantissa `computeTemp` stores: the trimmed sum times 100 over four times the count |
| DS18B20.PadValue | DS18B20/DS18B20.cpp:72-87 | the scratch-pad reading is a 16-bit value, and NO_VAL when the reset finds no device or the CRC over the first eight bytes differs from the ninth |
| DS18B20.PadValueBytes | DS18B20/DS18B20.cpp:86 | for a pad that passes the CRC, the value read is little-endian: its low byte is data[0] and its high byte data[1] |
| DS18B20.LowIsLastSample | DS18B20/DS18B20.cpp:105-111 | as written, `lo = min(hi, q[i])` ends as the last sample in slot order (and NO_VAL with no samples), not the smallest one |
| DS18B20.LowEmptyTail | DS18B20/DS18B20.cpp:105-111 | empty slots after the last sample leave `lo` unchanged |
| DS18B20.LowIsNotMinimum | DS18B20/DS18B20.cpp:109 | with 1.0, 5.0 and 3.0 degrees queued, the sample dropped as low is 3.0 while the smallest is 1.0 |
| DS18B20.DS18B20.constructor | DS18B20/DS18B20.cpp:11-16 | the queue is empty, the value invalid and the first conversion started with a 750 ms deadline; a missing device counts one failure with error 3 |
| DS18B20.DS18B20.Clear | DS18B20/DS18B20.cpp:18-23 | every slot holds NO_VAL, the size is 0 and the value invalid; indices and counters are unchanged |
| DS18B20.DS18B20.Fail | DS18B20/DS18B20.cpp:25-30 | below the limit of 3 the failure count grows by one and nothing else changes; at the limit the queue is cleared and the count stays |
| DS18B20.DS18B20.StartConversion | DS18B20/DS18B20.cpp:89-98 | the deadline is reset to 750 ms from now; with a device present nothing else changes, without one the error is 3 and the failure is counted as `fail` does |
| DS18B20.DS18B20.ReadScratchPad | DS18B20/DS18B20.cpp:72-87 | returns the pad's value; sets the error to 1 without a device and to 2 on a CRC mismatch, and otherwise leaves it |
| DS18B20.DS18B20.Enqueue | DS18B20/DS18B20.cpp:42-51 | the sample is written at the tail, the tail advances modulo 12 and the size grows up to 12, keeping the samples exactly the size slots before the tail |
| DS18B20.DS18B20.Check | DS18B20/DS18B20.cpp:32-60 | before the deadline nothing changes and it returns false; after it, it returns whether the scratch pad gave a value, the tail and size move on when it did, and the queue, head, tail, size, failure count, error and value are those of `CheckFields` on every path, the missing device at restart included |
| DS18B20.DS18B20.Fired | DS18B20/DS18B20.cpp:34-59 | after the deadline, the new fields and the result are `CheckFields` of the old ones, the pad and the presence pulse |
| DS18B20.ClearFields | DS18B20/DS18B20.cpp:18-23 | `clear` keeps the invariant, leaves no samples, and keeps the tail and failure count |
| DS18B20.FailFields | DS18B20/DS18B20.cpp:25-30 | `fail` keeps the invariant, the tail and the error; below the limit it counts one failure, at the limit the count stays |
| DS18B20.EnqueueFields | DS18B20/DS18B20.cpp:40-51 | queueing a good sample keeps the invariant, writes it at the old tail and leaves at least one sample |
| DS18B20.ConversionFields | DS18B20/DS18B20.cpp:89-98 | `startConversion` keeps the invariant and the tail |
| DS18B20.CheckFields | DS18B20/DS18B20.cpp:35-59 | one fired check keeps the invariant |
| DS18B20.CheckSucceeds | DS18B20/DS18B20.cpp:37-59 | a good reading returns true and is written at the old tail; the tail wraps at 12, the size grows up to 12, the value is invalid; the count and error are 0, or 1 and 3 when no device answers the restart |
| DS18B20.CheckFails | DS18B20/DS18B20.cpp:35-59 | a bad reading returns false and leaves error 1 or 2 from the read, or 3 when no device answers the restart; it counts one failure, two without that answer; within FAIL_LIMIT nothing else changes, past it the queue is cleared and the count stays at 3 |
| DS18B20.Checks | DS18B20/DS18B20.cpp:32-60 | a run of fired checks keeps the invariant |
| DS18B20.FailingChecksClear | DS18B20/DS18B20.cpp:25-60 | after FAIL_LIMIT + 1 bad readings (fewer if failures were already counted), every slot is NO_VAL, the value is invalid and the count is FAIL_LIMIT, with the other fields unchanged |
| DS18B20.DS18B20.ComputeValue | DS18B20/DS18B20.cpp:100-119 | the value is `Average` of the queue: the 16-bit wrapped sum of the samples, with the high and the as-written low dropped when there are more than two, times 100 over 16 times the count, as a 16-bit mantissa |
| DS18B20.DS18B20.ComputeValueIntended | DS18B20/DS18B20.cpp:100-119 | the value is `IntendedAverage`: the same wrapped average with the largest and the smallest sample dropped |
| DS18B20.DS18B20.GetTemp | DS18B20/DS18B20.cpp:62-66 | an invalid value with samples queued is recomputed as `Average` of the queue, 16-bit wrap included; otherwise the stored value is returned unchanged |
| DS18B20.Average | DS18B20/DS18B20.cpp:100-119 | the definition of the stored mantissa: the trimmed sum wrapped to the 16-bit `int sum`, times 100, over 16 times the count, truncated and cast to 16 bits |
| DS18B20.IntendedAverage | DS18B20/DS18B20.cpp:100-119 | the definition of the corrected mantissa: the same with the smallest sample dropped instead of the as-written `lo` |
| DS18B20.Wrap16 | DS18B20/DS18B20.cpp:103-116 | adding to a wrapped 16-bit total gives the wrap of the exact total, so the running `sum` ends as the exact sum wrapped once |
| DS18B20.Accumulate | DS18B20/DS18B20.cpp:101-111 | the loop leaves the wrapped sum, the count, the highest sample and the as-written `lo` of the queue |
| DS18B20.AccumulateIntended | DS18B20/DS18B20.cpp:101-111 | the corrected loop leaves the wrapped sum, the count, the highest and the smallest sample |
| DS18B20.Trim | DS18B20/DS18B20.cpp:112-117 | with more than two samples the sum loses `hi` and `lo` (wrapping again) and the count drops by two; otherwise both are kept |
| DS18B20.SensorSum | DS18B20/DS18B20.cpp:103-111 | with every sample between -55 and 125 degrees (in 1/16 degree) the sum lies between count times either end, and the count is at most the queue length |
| DS18B20.ExtremesInRange | DS18B20/DS18B20.cpp:108-109 | the highest sample, the smallest and the as-written `lo` are all readings in the sensor's range |
| DS18B20.SensorRangeNoWrap | DS18B20/DS18B20.cpp:103-118 | with 12 slots of readings in the sensor's range neither trimmed sum wraps in 16 bits, so the stored average divides the exact sum |
| DS18B20.IntendedAverageBetween | DS18B20/DS18B20.cpp:100-119 | the corrected average of sensor readings lies between the smallest and the largest sample, each scaled from 1/16 to 1/100 degree |
| DS18B20.QuotientBetween | DS18B20/DS18B20.cpp:118 | a sum of c readings between m and h, times 100 over 16c, lies between m and h times 100 over 16 and fits 16 bits |
| DS18B20.SumWrapsOutsideSensorRange | DS18B20/DS18B20.cpp:103-118 | outside the sensor's range the sum wraps: two samples of 20000 give the 16-bit sum -25536 and the mantissa -14264 |
| DS18B20.EnqueueWindow | DS18B20/DS18B20.cpp:42-51 | writing a sample at the tail keeps the occupied slots exactly the window before the new tail, one larger up to 12 |
| SHT1XCrc.BitsInjective | SHT1X/SHT1X.cpp:151-169 | a byte is determined by its eight bits taken most significant first |
| SHT1XCrc.ShiftOut | SHT1X/SHT1X.cpp:168 | shifting left by one drops the first bit sent and appends a zero |
| SHT1XCrc.ShiftIn | SHT1X/SHT1X.cpp:204-205 | shifting left and or-ing in the bit read appends that bit to the byte's bit sequence |
| SHT1XCrc.TopBit | SHT1X/SHT1X.cpp:156 | `(x & 0x80) == 0x80` is the first bit sent |
| SHT1XCrc.FromBitsRoundTrip | SHT1X/SHT1X.cpp:201-208 | the byte assembled from eight bits has exactly those bits |
| SHT1XCrc.BitsRoundTrip | SHT1X/SHT1X.cpp:201-208 | assembling a byte from its own bits gives the byte back |
| SHT1XCrc.Word | SHT1X/SHT1X.cpp:219 | `(x0 << 8) or x1` has high byte x0 and low byte x1 |
| SHT1XCrc.WordOfBytes | SHT1X/SHT1X.cpp:236-237 | a word split into `value >> 8` and `value & 0xff` and joined again is the same word |
| SHT1XCrc.Bits16Injective | SHT1X/SHT1X.cpp:236-237 | a word is determined by its sixteen bits |
| SHT1XCrc.SourceStep | SHT1X/SHT1X.cpp:242-248 | one round of the loop body (shift right, set bit 7 and flip 0x0C when the input bit differs from bit 0) is one CRC step |
| SHT1XCrc.CrcAppend | SHT1X/SHT1X.cpp:240-251 | the CRC of a concatenation continues from the CRC of its first part |
| SHT1XCrc.MessageBytes | SHT1X/SHT1X.cpp:234-237 | the checked message is the command byte, then the high and the low data byte, most significant bit first |
| SHT1XCrc.StepInjective | SHT1X/SHT1X.cpp:242-248 | one CRC step keeps two different registers different |
| SHT1XCrc.StepSeparates | SHT1X/SHT1X.cpp:242-248 | one CRC step from the same register gives different results for the two input bits |
| SHT1XCrc.CrcSeparates | SHT1X/SHT1X.cpp:240-251 | different registers stay different through any message |
| SHT1XCrc.DifferAt | SHT1X/SHT1X.cpp:240-251 | two messages that first differ at bit p have different CRCs after bit p |
| SHT1XCrc.DifferOnce | SHT1X/SHT1X.cpp:240-251 | two messages that differ in exactly one bit have different CRCs |
| SHT1XCrc.SingleBitErrorDetected | SHT1X/SHT1X.cpp:232-257 | flipping any single bit of a message changes its CRC |
| SHT1XCrc.DataBitFlipDetected | SHT1X/SHT1X.cpp:252-255 | a received word that differs from the sent one in one bit fails the CRC that the sensor computed for the sent one |
| SHT1XCrc.FiveZeros | SHT1X/SHT1X.cpp:240-251 | five zero bits from a zero register leave it zero |
| SHT1XCrc.CommandsDiffer | SHT1X/SHT1X.cpp:227-237 | for every data word, the CRC with the temperature command differs from the CRC with the humidity command, so an answer to the wrong command is refused |
| SHT1XCrc.ReadByte | SHT1X/SHT1X.cpp:202-208 | eight bits read most significant first are assembled into the byte with exactly those bits |
| SHT1XCrc.CrcByte | SHT1X/SHT1X.cpp:241-250 | the inner loop over a byte's eight bits computes the CRC of that byte continued from the initial register |
| SHT1X.ReceivedReply | SHT1X/SHT1X.cpp:197-220 | `read_data` recovers the data word and the CRC byte of any reply |
| SHT1X.StepKeepsGood | SHT1X/SHT1X.cpp:267-330 | every step of `check` keeps the failure count at most 60 and, in the humidity phases, a valid temperature that is the one the humidity will be corrected with |
| SHT1X.ReadKeepsGood | SHT1X/SHT1X.cpp:289-324 | a read step below the threshold keeps that invariant |
| SHT1X.TrueOnlyOnHumidity | SHT1X/SHT1X.cpp:312-323 | `check` returns true exactly when a humidity word was read with a good CRC below the threshold; then the error is 0, the next phase measures temperature after a 9 s cooldown and the humidity is paired with the last temperature reading |
| SHT1X.FailuresAccumulate | SHT1X/SHT1X.cpp:280-329 | a step that does not advance the phase counts one more failure and retries after 500 ms; a step that advances moves to the next phase of the cycle and keeps the failure count |
| SHT1X.ThresholdResets | SHT1X/SHT1X.cpp:271-275 | with 60 or more failures the sensor is reset, readings invalidated, the phase set to temperature measurement and the next check comes after 1 s |
| SHT1X.ZeroWordRefused | SHT1X/SHT1X.cpp:292-293 | a zero data word is refused with error 5 for temperature and 6 for humidity, even when its CRC is right |
| SHT1X.CorruptedWordRefused | SHT1X/SHT1X.cpp:294 | a nonzero word with one bit flipped in transit fails with error 3 |
| SHT1X.FullCycle | SHT1X/SHT1X.cpp:280-323 | four steps with a sensor that acknowledges and answers give false, false, false, true with waits of 500 ms, 0, 500 ms and 9 s, and store both readings with error 0 |
| SHT1X.Sht1x.constructor | SHT1X/SHT1X.cpp:80-96 | a new sensor measures temperature first with no failures, no readings and a deadline that has already passed |
| SHT1X.Sht1x.ResetSensor | SHT1X/SHT1X.cpp:128-138 | the phase returns to temperature measurement, the failure count to 0 and both readings become invalid |
| SHT1X.Sht1x.SendCmd | SHT1X/SHT1X.cpp:140-195 | the eight command bits are clocked out most significant first; the result is true exactly when the sensor acknowledged and released the line, with error 1 for no acknowledge and 2 for a line held low |
| SHT1X.ReadData | SHT1X/SHT1X.cpp:197-220 | the 24 bits read give the data word and the CRC byte as `Received` defines them |
| SHT1X.CrcMessage | SHT1X/SHT1X.cpp:233-251 | the nested loop computes the CRC of the command and the data word |
| SHT1X.Sht1x.VerifyCrc8 | SHT1X/SHT1X.cpp:232-257 | the result is whether the received CRC equals the CRC of the command and word; a mismatch sets error 3 |
| SHT1X.Sht1x.Done | SHT1X/SHT1X.cpp:259-265 | the result is whether the sensor pulled the line low; otherwise error 4 |
| SHT1X.Sht1x.ReadWord | SHT1X/SHT1X.cpp:289-300 | reads the word and reports it acceptable exactly when the sensor is done, the word is nonzero and its CRC matches, with the error each refusal sets |
| SHT1X.Sht1x.CommandPhase | SHT1X/SHT1X.cpp:281-287 | the measurement-command phase has the effect `Step` defines |
| SHT1X.Sht1x.ReadTempPhase | SHT1X/SHT1X.cpp:289-302 | the temperature-read phase has the effect `Step` defines |
| SHT1X.Sht1x.ReadRHPhase | SHT1X/SHT1X.cpp:312-324 | the humidity-read phase has the effect `Step` defines |
| SHT1X.Sht1x.Check | SHT1X/SHT1X.cpp:267-330 | before the deadline nothing changes and it returns false; after it, the new state, result and next deadline are those of `Step` |
| SHT1X.Received | SHT1X/SHT1X.cpp:197-220 | the definition of what `read_data` assembles: the first two bytes as the word, high byte first, the third as the CRC |
| SHT1X.Reply | SHT1X/SHT1X.cpp:197-220 | the reply of a sensor sending a word and a CRC is 24 bits long |
| SHT1X.Reset | SHT1X/SHT1X.cpp:128-138 | the definition of `reset()`: back to the temperature measurement, no failures, both readings invalid |
| SHT1X.Failed | SHT1X/SHT1X.cpp:267-330 | the definition of a failed phase: the same phase again in 500 ms with one more failure counted |
| SHT1X.SendError | SHT1X/SHT1X.cpp:140-195 | the definition of the error a failed command leaves: 1 when unacknowledged, 2 when the line is not released |
| SHT1X.ReadError | SHT1X/SHT1X.cpp:291-302 | the definition of the error a read phase leaves: 4 when the measurement is not done, the phase's code for a zero word even with a matching CRC, 3 for a CRC mismatch, else 0 |
| SHT1X.Step | SHT1X/SHT1X.cpp:267-330 | the definition of `check()` once its timeout has fired, phase by phase |
| SHT1X.Good | SHT1X/SHT1X.cpp:267-330 | the invariant `StepKeepsGood` keeps: a failure count of at most 60 and, in the humidity phases, a valid temperature |
| SHT1X.NextPhase | SHT1X/SHT1X.cpp:267-330 | the definition of the phase cycle: each step stays, moves to the next phase or resets to the temperature measurement |
| SHT1XCrc.CrcStep | SHT1X/SHT1X.cpp:242-248 | the definition of one step of the CRC-8 with polynomial x^8 + x^5 + x^4 + 1, in reflected form |
| SHT1XCrc.Crc | SHT1X/SHT1X.cpp:240-251 | the definition of the register after a run of bits, in order |
| SHT1XCrc.Crc8 | SHT1X/SHT1X.cpp:232-257 | the definition of the CRC the sensor must send with a word in answer to a command |
| SHT1XCrc.Message | SHT1X/SHT1X.cpp:233-238 | what `verify_crc8` runs through the register is 24 bits: the command, then the word's high and low byte |
| HumidIcon.Set | HIH/HIH.cpp:21-25 | the status `b[0] >> 6` has two bits and both words `Data::set` extracts have 14 bits |
| HumidIcon.Pack | HIH/HIH.cpp:21-25 | the bytes a sensor sends for a two-bit status and two 14-bit words are four bytes |
| HumidIcon.SetPack | HIH/HIH.cpp:21-25 | `Data::set` reads back exactly the status and the words the sensor packed |
| HumidIcon.PackSet | HIH/HIH.cpp:21-25 | packing what `Data::set` read gives back the four bytes except the low two bits of b[3], which it ignores |
| HumidIcon.Product | HIH/HIH.cpp:54 | `fixnum32_1::scale(x) * k` for a 14-bit word and k of 100 or 165 does not overflow and is x times 10k tenths |
| HumidIcon.Quotient | HIH/HIH.cpp:54-57 | dividing that product by the full scale is exact integer division of the mantissas and lies between 0 and 10k |
| HumidIcon.Scaled | HIH/HIH.cpp:54-57 | a 14-bit word times k divided by the full scale lies between 0 and k |
| HumidIcon.RhValue | HIH/HIH.cpp:57 | the humidity is a valid `fixnum16_1` of `h * 1000 / d` tenths of a percent, between 0 and 100.0 |
| HumidIcon.TempValue | HIH/HIH.cpp:54 | the temperature is a valid `fixnum16_1` of `t * 1650 / d - 400` tenths of a degree, between -40.0 and 125.0 |
| HumidIcon.Monotonic | HIH/HIH.cpp:54-57 | a larger raw word never gives a smaller humidity or temperature |
| HumidIcon.DivMono | HIH/HIH.cpp:54-57 | integer division by a positive divisor is monotonic |
| HIH.ReceiveShape | HIH/HIH.cpp:31-61 | `receive` returns an 8-bit code that is 0 exactly when both fetches succeed, the first is fresh and the second stale; a nonzero code is a fetch status, 1 or 2 and leaves the readings; code 0 stores valid readings converted from the first fetch |
| HIH.StepKeepsGood | HIH/HIH.cpp:63-107 | every step of `check` keeps the state in {0, 1}, the retry count at most 4 and the two readings both valid or both invalid |
| HIH.CheckResult | HIH/HIH.cpp:76-107 | `check` returns true exactly when a verified fetch pair was taken, or a failure with valid readings used up the last retry; a taken fetch clears the error and the retry count, goes back to measuring and waits 5 s |
| HIH.FailureRetries | HIH/HIH.cpp:63-74 | a failure sets a nonzero error, goes back to measuring and retries in 1 s; with valid readings it counts a retry and clears both readings once the count was already 3 |
| HIH.HonestFetches | HIH/HIH.cpp:36-50 | a sensor that answers truthfully sends a fresh then a stale copy of the same words |
| HIH.FullCycle | HIH/HIH.cpp:76-104 | from measuring, two checks against a truthful sensor return false then true, wait 50 ms then 5 s, make the command then the two fetches on the bus, and store the converted readings with the error and retries cleared |
| HIH.DifferentDataAccepted | HIH/HIH.cpp:51-52 | as written the comparison `data1.h != data1.h or data2.t != data2.t` is never true, so a second fetch with different words is accepted and the first words are stored |
| HIH.IntendedTakesAgreedData | HIH/HIH.cpp:48-60 | with the comparison of the two fetches as intended, `receive` succeeds exactly when both fetches are verified and carry the same words |
| HIH.IntendedStepKeepsGood | HIH/HIH.cpp:76-107 | the corrected step keeps the invariant, and a reading it takes comes from two agreeing fetches |
| HIH.Driver.constructor | HIH/HIH.cpp:27-29 | a new driver is measuring with no error, no retries, invalid readings and a deadline that has already passed |
| HIH.Driver.GetTemp | HIH/HIH.h:55-57 | returns the stored temperature |
| HIH.Driver.GetRH | HIH/HIH.h:59-61 | returns the stored humidity |
| HIH.Driver.GetState | HIH/HIH.h:63-65 | the 16-bit state word has the last error in its high byte and the state in its low byte |
| HIH.Driver.ReceiveData | HIH/HIH.cpp:31-61 | the code, new state and master calls are those of `ReceiveStep` |
| HIH.Driver.ReceiveDataIntended | HIH/HIH.cpp:31-61 | the code, new state and master calls are those of the corrected `receive` |
| HIH.Driver.RetryNow | HIH/HIH.cpp:63-74 | the state and the result are those of `Retry`, with the deadline 1 s from now |
| HIH.Driver.MeasurePhase | HIH/HIH.cpp:81-91 | the measuring phase has the effect `Step` defines |
| HIH.Driver.ReceivePhase | HIH/HIH.cpp:92-104 | the receiving phase has the effect `Step` defines |
| HIH.Driver.Check | HIH/HIH.cpp:76-107 | before the deadline nothing changes and it returns false; after it, the new state, result, deadline and master calls are those of `Step` |
| HIH6120.ReceiveShape | HIH6120/HIH6120.cpp:16-36 | `receive` returns an 8-bit code that is 0 exactly when the fetch pair is verified; a nonzero code is 1 or a fetch status; the words kept are those of the first fetch whenever it succeeded |
| HIH6120.StepKeepsGood | HIH6120/HIH6120.cpp:47-71 | every step of `check` keeps the retry count at most 4 and the words within 14 bits |
| HIH6120.CheckResult | HIH6120/HIH6120.cpp:47-71 | `check` returns true exactly when it was receiving and the fetch pair is verified; then the words are the first fetch's, valid, retries cleared, measuring again after 5 s, and the readings are their conversions |
| HIH6120.FailureRetries | HIH6120/HIH6120.cpp:38-45 | a failure returns false, goes back to measuring and retries in 1 s; valid readings count a retry and stay valid only while the count was below 3 |
| HIH6120.HonestFetches | HIH6120/HIH6120.cpp:21-34 | a truthful sensor sends a fresh then a stale copy of the same words, which verifies |
| HIH6120.FullCycle | HIH6120/HIH6120.cpp:47-68 | from measuring, two checks against a truthful sensor return false then true, wait 50 ms then 5 s, open and close a master around the command and around the two fetches, and report the converted readings |
| HIH6120.UnverifiedWordsReported | HIH6120/HIH6120.cpp:24-34 | as written a failed verification leaves the first fetch's words in `_data`, so with earlier readings still valid `getRH` and `getTemp` report words that did not verify |
| HIH6120.IntendedKeepsVerified | HIH6120/HIH6120.cpp:16-45 | when the words are kept only after verification, `check` keeps the invariant, succeeds exactly on a verified pair, and a failure leaves the words as they were |
| HIH6120.Driver.constructor | HIH6120/HIH6120.cpp:10-14 | a new driver keeps its speed, is measuring with invalid readings, no retries and a deadline that has already passed |
| HIH6120.Driver.GetRH | HIH6120/HIH6120.cpp:73-77 | invalid without a valid reading; otherwise `h * 1000 / (2^14 - 1)` tenths of a percent, between 0 and 100.0 |
| HIH6120.Driver.GetTemp | HIH6120/HIH6120.cpp:79-83 | invalid without a valid reading; otherwise `t * 1650 / (2^14 - 1) - 400` tenths of a degree, between -40.0 and 125.0 |
| HIH6120.Driver.ReceiveData | HIH6120/HIH6120.cpp:16-36 | the code, words and master calls are those of `ReceiveStep`, the flags unchanged |
| HIH6120.Driver.ReceiveDataIntended | HIH6120/HIH6120.cpp:16-36 | the code, words and master calls are those of the corrected `receive`, the flags unchanged |
| HIH6120.Driver.RetryNow | HIH6120/HIH6120.cpp:38-45 | the new state is that of `Retry`, with the deadline 1 s from now |
| HIH6120.Driver.Check | HIH6120/HIH6120.cpp:47-71 | before the deadline nothing changes and it returns false; after it, the new state, result, deadline and master calls are those of `Step` |
| HIH.ReceiveStep | HIH/HIH.cpp:31-61 | the definition of `receive()`: the first fetch's status, code 1 for data that is not fresh, the second fetch's status, code 2 for data that is not stale, code 3 for the as-written comparison, then `Store` |
| HIH.Store | HIH/HIH.cpp:53-60 | the definition of the conversions that end `receive()`: the temperature stored, code 4 when it is invalid, then the humidity, code 5 when it is invalid, else 0 |
| HIH.Driver.StoreReading | HIH/HIH.cpp:53-60 | for 14-bit words the code and the new state are those of `Store`, and the bus is untouched |
| HIH.Retry | HIH/HIH.cpp:63-74 | the definition of `retry()`: back to the measurement; with a valid reading the count grows and the retry that finds it at the limit invalidates both readings |
| HIH.Failed | HIH/HIH.cpp:76-107 | the definition of a failed call of `check()`: the error kept, then `retry()` |
| HIH.Step | HIH/HIH.cpp:76-107 | the definition of `check()` once its timeout has fired |
| HIH.StepWith | HIH/HIH.cpp:92-104 | the definition of the receiving phase of `check()` for an outcome of `receive()` |
| HIH.Good | HIH/HIH.cpp:63-107 | the invariant `StepKeepsGood` keeps: one of the two phases, an 8-bit error, two `fixnum16_1` readings valid together, retried at most three times while valid, and a retry count that never passes four |
| HIH.Verified | HIH/HIH.cpp:36-50 | the definition of a fetch pair `receive()` accepts: fresh, then stale, without a bus error |
| HIH.ReceiveIntended | HIH/HIH.cpp:51-52 | the definition of `receive()` with the comparison the comment describes |
| HIH.StepIntended | HIH/HIH.cpp:76-107 | the definition of `check()` built on the corrected `receive()` |
| HIH6120.ReceiveStep | HIH6120/HIH6120.cpp:16-36 | the definition of `receive()`: the words of the first fetch kept once it succeeds, code 1 unless the pair verifies, bus errors returned as their status |
| HIH6120.Verified | HIH6120/HIH6120.cpp:21-34 | the definition of the test `receive()` makes: fresh, then stale with the same words, with no bus error |
| HIH6120.Retry | HIH6120/HIH6120.cpp:38-45 | the definition of `retry()`: back to the measurement; a valid reading counts the retry and the one past the limit invalidates it |
| HIH6120.StepWith | HIH6120/HIH6120.cpp:47-71 | the definition of `check()` for an outcome of `receive()` |
| HIH6120.Step | HIH6120/HIH6120.cpp:47-71 | the definition of `check()` once its timeout has fired |
| HIH6120.RhOf | HIH6120/HIH6120.cpp:73-77 | the definition of `getRH()`: invalid without a valid reading, else the humidity word converted |
| HIH6120.TempOf | HIH6120/HIH6120.cpp:79-83 | the definition of `getTemp()`: invalid without a valid reading, else the temperature word converted |
| HIH6120.Good | HIH6120/HIH6120.cpp:38-71 | the invariant `StepKeepsGood` keeps: 14-bit words, a retry count that never wraps, a valid reading retried at most three times |
| HIH6120.ReceiveIntended | HIH6120/HIH6120.cpp:16-36 | the definition of `receive()` keeping the words only once both fetches verify them |
| HIH6120.StepIntended | HIH6120/HIH6120.cpp:47-71 | the definition of `check()` built on the corrected `receive()` |
| Humidity.ColdShaped | Humidity/Humidity.cpp:11-37 | the first run of the pressure table is positive, increasing and at most 73773 |
| Humidity.MildShaped | Humidity/Humidity.cpp:38-64 | the middle run of the table is positive, increasing and at most 73773 |
| Humidity.WarmShaped | Humidity/Humidity.cpp:65-91 | the last run of the table is positive, increasing and at most 73773 |
| Humidity.TableShape | Humidity/Humidity.cpp:6-92 | the table has one entry per whole degree from -40 to 40, each positive, at most 73773 and below the next |
| Humidity.TableIncreasing | Humidity/Humidity.cpp:10-92 | any earlier entry of the table is below any later one |
| Humidity.ClampRh | Humidity/Humidity.cpp:100-103 | the clamped humidity is still a `fixnum16_1` |
| Humidity.ClampRhIsClamp | Humidity/Humidity.cpp:100-103 | a valid humidity above 100 becomes 100.0, below 0 becomes 0 and otherwise stays |
| Humidity.Entry | Humidity/Humidity.cpp:104-105 | a table entry read as `wvp_t` is a valid `fixnum32_3` with the table's mantissa |
| Humidity.Fraction | Humidity/Humidity.cpp:106 | `temp - scale(t)` is a `fixnum16_2` |
| Humidity.Complement | Humidity/Humidity.cpp:107 | `1 - t0` is a `fixnum16_2` |
| Humidity.FractionExact | Humidity/Humidity.cpp:97-107 | for a covered temperature, `t0` is its hundredths above the floor, between 0 and 99, and `t1` is 100 minus them, both valid |
| Humidity.SumAsWritten | Humidity/Humidity.cpp:108 | `p0 * t0 + p1 * t1` is a `fixnum32_5` |
| Humidity.SumIntended | Humidity/Humidity.cpp:108 | the interpolation with the weights the right way round is a `fixnum32_5` |
| Humidity.Scaled | Humidity/Humidity.cpp:108 | `(...) * rh / 100` is a `fixnum32_3` |
| Humidity.WaterVaporPressure | Humidity/Humidity.cpp:94-109 | the result is a `fixnum32_3`, invalid when the temperature or the humidity is invalid or the temperature's floor is outside [-40, 40) |
| Humidity.Saturation | Humidity/Humidity.cpp:104-108 | the interpolated saturation pressure is a `fixnum32_3` |
| Humidity.WaterVaporPressureIntended | Humidity/Humidity.cpp:94-109 | the corrected function has the same invalid cases and result type |
| Humidity.ProductBound | Humidity/Humidity.cpp:108 | a product of two bounded naturals is bounded by the product of the bounds |
| Humidity.EntryPair | Humidity/Humidity.cpp:104-105 | the two entries read are valid and increasing, the second at most 73773 |
| Humidity.Weighted | Humidity/Humidity.cpp:108 | with weights summing to 100 hundredths, `p0 * w0 + p1 * w1` does not overflow and is the integer mix of the mantissas, at most 14754600 |
| Humidity.SumAsWrittenIs | Humidity/Humidity.cpp:104-108 | as written the sum weights the lower entry by the fraction above the floor and the upper entry by its complement |
| Humidity.SumIntendedIs | Humidity/Humidity.cpp:104-108 | the intended sum weights the lower entry by the complement and the upper by the fraction |
| Humidity.ScaledExact | Humidity/Humidity.cpp:108 | `* rh / 100` is the 32-bit product of the mantissas, divided by 100 and rounded down to three decimals |
| Humidity.AsWritten | Humidity/Humidity.cpp:94-109 | as written, for covered valid inputs whose product fits 32 bits, the result is the swapped mix times the clamped humidity, over 100, rounded to three decimals |
| Humidity.RoundDiv10OfNatural | FixNum/utility/FixNumUtil.h:162-167 | rounding a natural down one decimal adds 5 and divides by 10 |
| Humidity.ScaleDownOne | FixNum/utility/FixNumUtil.h:160-170 | dropping one decimal from a natural adds 5 and divides by 10 |
| Humidity.ScaleDownTwo | FixNum/utility/FixNumUtil.h:160-170 | dropping two decimals from a natural rounds twice |
| Humidity.Rounding | Humidity/Humidity.cpp:108 | rounding twice keeps a value between 100a and 100b between a and b, and 100a exactly at a |
| Humidity.MixBounds | Humidity/Humidity.cpp:104-108 | the mix of two increasing entries lies between 100 times each, and equals 100 times the lower with no fraction |
| Humidity.Interpolate | Humidity/Humidity.cpp:104-108 | the interpolated pressure lies between the two entries, and is the lower entry at a whole degree |
| Humidity.Lowered | Humidity/Humidity.cpp:108 | a bounded `fixnum32_5` converted to `fixnum32_3` is valid and rounded down two decimals |
| Humidity.SaturationBetween | Humidity/Humidity.cpp:104-108 | the saturation pressure at a covered temperature lies between the table entries of its floor and the next degree, and is the floor's entry at a whole degree |
| Humidity.Thousandths | Humidity/Humidity.cpp:108 | dividing a pressure times a humidity in tenths by 100 and rounding one more decimal is rounding to thousandths, at most the pressure, and the pressure at 100 percent |
| Humidity.ScaledNatural | Humidity/Humidity.cpp:108 | a table-sized pressure times a humidity between 0 and 100.0 is valid, rounded to thousandths, at most the pressure and equal to it at 100 percent |
| Humidity.IntendedScalesSaturation | Humidity/Humidity.cpp:94-109 | the corrected result is the saturation pressure times the clamped humidity, rounded, between 0 and the saturation pressure, and equal to it at 100 percent |
| Humidity.IntendedWithinTable | Humidity/Humidity.cpp:94-109 | the corrected result never exceeds the next degree's entry; at 100 percent or more it lies between the floor's and the next degree's entries, and at a whole degree it is the floor's entry |
| Humidity.IntendedMonotoneInRh | Humidity/Humidity.cpp:94-109 | at a fixed temperature the corrected result never decreases as the humidity grows |
| Humidity.SampleEntries | Humidity/Humidity.cpp:51-52 | the table holds 6107 at 0 degrees and 6565 at 1 degree, 23371 at 20 degrees and 24858 at 21 degrees |
| Humidity.WholeDegree | Humidity/Humidity.cpp:97-107 | a whole degree t is covered, indexes entry t + 40 and has no fraction |
| Humidity.SampleRoundings | Humidity/Humidity.cpp:108 | 656500 times 500 fits 32 bits and rounds to 3283; 2485800 times 1000 wraps to -1809167296 and rounds to -18092 |
| Humidity.AsWrittenWhole | Humidity/Humidity.cpp:94-109 | as written, at a whole degree the result uses the next degree's entry, times 100 and the clamped humidity, over 100, rounded |
| Humidity.IntendedWhole | Humidity/Humidity.cpp:94-109 | corrected, at a whole degree the result is that degree's entry times the clamped humidity, rounded to thousandths |
| Humidity.WeightsSwapped | Humidity/Humidity.cpp:106-108 | as written, at 0 degrees and 50 percent the result is 3.283 mb, half the 1-degree entry, not half the 0-degree entry |
| Humidity.HalfSaturated | Humidity/Humidity.cpp:94-109 | corrected, at 0 degrees and 50 percent the result is 3.054 mb, half the 0-degree entry |
| Humidity.ProductWraps | Humidity/Humidity.cpp:108 | as written, at 20 degrees and 100 percent the 32-bit product wraps and the result is -18.092 mb; corrected it is 23.371 mb |
| ExtendedTwiState.Init | ExtendedWire/utility/extended_twi.c:103-120 | the engine starts idle, with no bytes on the bus and `twi_error` at the 0 of static storage |
| ExtendedTwiState.Error2StatusCodes | ExtendedWire/utility/extended_twi.c:578-590 | the status is between OK and OTHER; OK exactly when no error (0xFF) was recorded, SLA_NACK for an unacknowledged address, DATA_NACK for unacknowledged data, OTHER for lost arbitration or a bus error |
| ExtendedTwiState.Status | ExtendedWire/utility/extended_twi.c:208-218 | `twi_status` is BUSY exactly while the engine is not idle |
| ExtendedTwiState.BeginReadFrom | ExtendedWire/utility/extended_twi.c:236-269 | starting a read keeps the engine's types valid |
| ExtendedTwiState.BeginReadFromAt | ExtendedWire/utility/extended_twi.c:305-345 | starting a read at a one-byte offset keeps the engine's types valid |
| ExtendedTwiState.BeginReadFromAt2 | ExtendedWire/utility/extended_twi.c:373-416 | starting a read at a two-byte offset keeps the engine's types valid |
| ExtendedTwiState.BeginWriteTo | ExtendedWire/utility/extended_twi.c:447-480 | starting a write keeps the engine's types valid |
| ExtendedTwiState.BeginRefusals | ExtendedWire/utility/extended_twi.c:236-480 | each of the four starts returns BAD_ARGS exactly for more than 32 bytes, BUSY exactly for a fitting length on a busy engine, and then changes nothing; otherwise OK with no error recorded, index 0, a START on the bus and the engine busy |
| ExtendedTwiState.BeginWriteToCopies | ExtendedWire/utility/extended_twi.c:457-476 | an accepted write holds exactly the caller's bytes, their count as length, and the address shifted left with the write bit clear |
| ExtendedTwiState.LastFit | ExtendedWire/utility/extended_twi.c:509-532 | the last call whose bytes fit the buffer is one of the calls; there is none exactly when every call is too long |
| ExtendedTwiState.LastTransmitWins | ExtendedWire/utility/extended_twi.c:509-532 | while transmitting as a slave, a sequence of `twi_transmit` calls changes only the reply buffer and its length, which hold the last call that fit; with none that fit nothing changes |
| ExtendedTwiState.GetDataFromRead | ExtendedWire/utility/extended_twi.c:220-231 | returns a nonzero count exactly when the engine is idle, no error was recorded, and some bytes were read that fit the caller's length; then it hands back exactly those bytes |
| ExtendedTwiState.RunAppend | ExtendedWire/utility/extended_twi.c:630-792 | handling two runs of interrupts one after the other is handling their concatenation |
| ExtendedTwiState.RunCons | ExtendedWire/utility/extended_twi.c:630-792 | a run of interrupts is the first handled, then the rest |
| ExtendedTwiState.RunStart | ExtendedWire/utility/extended_twi.c:634-639 | after a START the address byte is loaded and acknowledged |
| ExtendedTwiState.RunSendNext | ExtendedWire/utility/extended_twi.c:653-673 | when writing, an acknowledged address or byte sends the next byte or the STOP |
| ExtendedTwiState.RunOffset | ExtendedWire/utility/extended_twi.c:642-652 | when reading at an offset, the acknowledged address is followed by the first offset byte |
| ExtendedTwiState.RunOffsetSent | ExtendedWire/utility/extended_twi.c:653-664 | when reading at an offset, an acknowledged offset byte is followed by the next one or by a repeated START with the read bit |
| ExtendedTwiState.RunReadAddressed | ExtendedWire/utility/extended_twi.c:691-698 | an acknowledged read address is answered with ACK when more than one byte is expected and NACK otherwise |
| ExtendedTwiState.SendAll | ExtendedWire/utility/extended_twi.c:653-673 | with n bytes left, n + 1 data acknowledgements send them all, each loaded and acknowledged, then a STOP, leaving the engine idle |
| ExtendedTwiState.SendLast | ExtendedWire/utility/extended_twi.c:670-672 | with no bytes left, an acknowledgement sends the STOP |
| ExtendedTwiState.SendByte | ExtendedWire/utility/extended_twi.c:666-669 | an acknowledgement with bytes left loads the next byte and advances the index |
| ExtendedTwiState.WriteTransfer | ExtendedWire/utility/extended_twi.c:447-673 | a write accepted on an idle engine, acknowledged throughout, puts START, the address with the write bit, every byte, then STOP on the bus and ends idle with status OK |
| ExtendedTwiState.ReceiveAll | ExtendedWire/utility/extended_twi.c:688-704 | reading the remaining bytes stores them after the bytes already read, ACKs all but the last, NACKs and STOPs after it, and leaves the engine idle |
| ExtendedTwiState.ReceiveLast | ExtendedWire/utility/extended_twi.c:699-704 | the last byte read is stored and followed by the STOP |
| ExtendedTwiState.ReceiveNext | ExtendedWire/utility/extended_twi.c:688-698 | a byte read with more to come is stored and answered ACK when two or more remain |
| ExtendedTwiState.RunReceived | ExtendedWire/utility/extended_twi.c:688-704 | a received byte is stored, then answered by ACK or NACK, or by STOP after the last one |
| ExtendedTwiState.AddressRead | ExtendedWire/utility/extended_twi.c:634-704 | from an acknowledged address, reading all the bytes leaves exactly those bytes at the front of the buffer and the engine idle |
| ExtendedTwiState.ReadTransfer | ExtendedWire/utility/extended_twi.c:236-704 | a read started on an idle engine, where the device sends bs, ends with status OK, the address with the read bit and the expected ACKs, NACK and STOP on the bus, and `twi_getDataFromRead` handing back exactly bs |
| ExtendedTwiState.ReadAtTransfer | ExtendedWire/utility/extended_twi.c:305-704 | a read at a one-byte offset sends the address, the offset, a repeated START with the read bit, and hands back exactly the bytes the device sent |
| ExtendedTwiState.ReadAt2Transfer | ExtendedWire/utility/extended_twi.c:373-704 | a read at a two-byte offset sends the address, the high then the low offset byte, a repeated START with the read bit, and hands back exactly the bytes the device sent |
| ExtendedTwiState.AbsentDevice | ExtendedWire/utility/extended_twi.c:674-704 | a write to an address nobody acknowledges ends idle with SLA_NACK; a read from one ends idle with status OK and no bytes handed back |
| ExtendedTwiState.SlaveReceiveAll | ExtendedWire/utility/extended_twi.c:718-729 | bytes received as a slave with room in the buffer are stored in order and each acknowledged |
| ExtendedTwiState.SlaveReception | ExtendedWire/utility/extended_twi.c:708-741 | a master writing bs to this slave is acknowledged throughout, and the STOP delivers exactly bs to the receive handler and leaves the engine idle |
| ExtendedTwiState.SlaveStopDelivers | ExtendedWire/utility/extended_twi.c:730-741 | a STOP delivers the bytes received so far and leaves the engine idle |
| ExtendedTwiState.SlaveBufferFull | ExtendedWire/utility/extended_twi.c:720-728 | a byte arriving with the receive buffer full is not stored and is answered NACK |
| ExtendedTwiState.ReplyData | ExtendedWire/utility/extended_twi.c:749-764 | the reply a slave sends has between 1 and 32 bytes |
| ExtendedTwiState.SlaveSendAll | ExtendedWire/utility/extended_twi.c:766-775 | each data acknowledgement sends the next reply byte, answered ACK while more remain |
| ExtendedTwiState.SlaveSendByte | ExtendedWire/utility/extended_twi.c:766-775 | one acknowledgement loads the next reply byte and advances the index |
| ExtendedTwiState.SlaveRequestedReply | ExtendedWire/utility/extended_twi.c:749-775 | on being addressed for reading, the engine becomes a slave transmitter, takes the reply the handler's calls leave (a single 0 when none fit), and loads its first byte |
| ExtendedTwiState.SlaveTransmission | ExtendedWire/utility/extended_twi.c:749-775 | a master that acknowledges every byte receives exactly the reply, each byte followed by ACK but the last |
| ExtendedTwiState.MasterIsrKeepsValid | ExtendedWire/utility/extended_twi.c:632-705 | the master cases of the interrupt keep the engine's types valid |
| ExtendedTwiState.MasterReceiveKeepsValid | ExtendedWire/utility/extended_twi.c:688-704 | storing a received byte keeps the engine's types valid |
| ExtendedTwiState.MasterSendKeepsValid | ExtendedWire/utility/extended_twi.c:642-673 | sending the next byte keeps the engine's types valid |
| ExtendedTwiState.MasterOtherKeepsValid | ExtendedWire/utility/extended_twi.c:634-705 | the other master cases keep the engine's types valid |
| ExtendedTwiState.SlaveIsrKeepsValid | ExtendedWire/utility/extended_twi.c:707-782 | the slave cases of the interrupt keep the engine's types valid |
| ExtendedTwiState.SlaveRequestedKeepsValid | ExtendedWire/utility/extended_twi.c:749-765 | being addressed as a slave transmitter keeps the engine's types valid |
| ExtendedTwiState.SlaveReplyKeepsValid | ExtendedWire/utility/extended_twi.c:707-782 | the remaining slave cases keep the engine's types valid |
| ExtendedTwiState.IsrKeepsValid | ExtendedWire/utility/extended_twi.c:630-792 | every interrupt keeps the engine's types valid |
| ExtendedTwiState.RunKeepsValid | ExtendedWire/utility/extended_twi.c:630-792 | any run of interrupts keeps the engine's types valid |
| ExtendedTwiState.Collect | ExtendedWire/utility/extended_twi.c:289-290 | a blocking call finishes exactly when the engine is idle again, leaving it as it is |
| ExtendedTwiState.KickoffReadDelivers | ExtendedWire/utility/extended_twi.c:220-269 | a read started without waiting, once the device has sent bs, leaves exactly bs for a caller with a 32-byte buffer |
| ExtendedTwiState.ReadFromReturnsBytes | ExtendedWire/utility/extended_twi.c:280-291 | `twi_readFrom` returns the count and exactly the bytes the device sent |
| ExtendedTwiState.ReadFromAtReturnsBytes | ExtendedWire/utility/extended_twi.c:347-359 | `twi_readFromAt` returns the count and exactly the bytes the device sent |
| ExtendedTwiState.WriteToSucceeds | ExtendedWire/utility/extended_twi.c:482-494 | `twi_writeTo` to a device that acknowledges everything finishes with status OK |
| ExtendedTwiState.ReadFromAt2LockedOut | ExtendedWire/utility/extended_twi.c:418-431 | as written, right after start-up (`twi_error` 0) `twi_readFromAt2` returns 0 bytes without touching the bus, whatever the device would send |
| ExtendedTwiState.ReadFromAt2AfterFailure | ExtendedWire/utility/extended_twi.c:418-431 | as written `twi_readFromAt2` returns 0 bytes without touching the bus after any failed transfer |
| ExtendedTwiState.ReadFromAt2IntendedReturnsBytes | ExtendedWire/utility/extended_twi.c:418-431 | without that check, `twi_readFromAt2` returns the count and exactly the bytes the device sent |
| ExtendedTwiState.ZeroLengthRead | ExtendedWire/utility/extended_twi.c:241-253 | as written a read of 0 bytes is accepted, sets the last index to 255, ACKs the first byte, and can store past the 32-byte buffer |
| ExtendedTwiState.BeginReadFromIntendedFits | ExtendedWire/utility/extended_twi.c:236-269 | refusing a length of 0 as well, a read is accepted exactly for 1 to 32 bytes and never stores past the buffer |
| ExtendedTwiState.Prescale | ExtendedWire/utility/extended_twi.c:194-196 | the prescaler is 1, 4, 16 or 64 |
| ExtendedTwiState.TwbrFor | ExtendedWire/utility/extended_twi.c:202 | the bit-rate register value is a byte |
| ExtendedTwiState.SetSpeed | ExtendedWire/utility/extended_twi.c:185-206 | the new TWBR is a byte, the prescaler bits are cleared and the other bits of TWSR kept, and the former rate is returned |
| ExtendedTwiState.StandardSpeeds | ExtendedWire/utility/extended_twi.c:187-202 | at 16 MHz, 100 kHz gives TWBR 72 and 400 kHz gives 12, and those settings give back those rates |
| ExtendedTwiState.SpeedRoundTrip | ExtendedWire/utility/extended_twi.c:185-206 | for rates from 30.4 kHz to 1 MHz, TWBR is the largest setting whose rate is not below the request |
| ExtendedTwiState.SlowSpeedWraps | ExtendedWire/utility/extended_twi.c:202 | as written, a 10 kHz request wraps in the 8-bit register to TWBR 24, which clocks at 250 kHz |
| ExtendedTwiState.PrescalerFor | ExtendedWire/utility/extended_twi.c:194-202 | the intended prescaler choice is two bits with which the divisor fits TWBR |
| ExtendedTwiState.PrescaleBits | ExtendedWire/utility/extended_twi.c:194-201 | setting the two prescaler bits selects the prescaler they encode whatever the other bits of TWSR |
| ExtendedTwiState.SetSpeedIntended | ExtendedWire/utility/extended_twi.c:185-206 | with a prescaler chosen as well, the new TWBR is a byte, the other bits of TWSR are kept, and the former rate is returned |
| ExtendedTwiState.SetSpeedIntendedRoundTrip | ExtendedWire/utility/extended_twi.c:185-206 | for rates from 489 Hz to 1 MHz, the intended setting is the largest for its prescaler whose rate is not below the request |
| ExtendedTwiState.TenKilohertz | ExtendedWire/utility/extended_twi.c:185-206 | with the prescaler chosen, 10 kHz gives TWBR 198 with prescaler 4 and clocks at exactly 10 kHz |
| ExtendedTwiState.Error2Status | ExtendedWire/utility/extended_twi.c:578-591 | the definition of `twi_error2status`: 0xFF is OK, an address NACK and a data NACK have their own codes, every other error is OTHER |
| ExtendedTwiState.Refusal | ExtendedWire/utility/extended_twi.c:240-244 | the definition of the checks every `twi_begin*` makes: BAD_ARGS when the length exceeds 32, BUSY when the engine is not READY |
| ExtendedTwiState.StartMaster | ExtendedWire/utility/extended_twi.c:246-266 | the definition of an accepted start: the phase, error 0xFF, the buffer indices, the address byte and a START on the bus |
| ExtendedTwiState.Transmit | ExtendedWire/utility/extended_twi.c:509-538 | the definition of `twi_transmit`: code 1 when too long, 2 when not a slave transmitter, else the reply replaced |
| ExtendedTwiState.ReplyWith | ExtendedWire/utility/extended_twi.c:566-576 | the definition of `twi_reply`: the transfer let go on, with or without ACK |
| ExtendedTwiState.StopBus | ExtendedWire/utility/extended_twi.c:598-612 | the definition of `twi_stop`: a STOP on the bus, then READY |
| ExtendedTwiState.ReleaseBus | ExtendedWire/utility/extended_twi.c:619-628 | the definition of `twi_releaseBus`: the bus let go without a STOP, then READY |
| ExtendedTwiState.SendOffset | ExtendedWire/utility/extended_twi.c:642-651 | the definition of an acknowledged address in a read-at: the first offset byte, the high one of two, goes out |
| ExtendedTwiState.OffsetSent | ExtendedWire/utility/extended_twi.c:653-664 | the definition of an acknowledged offset byte: the low byte if one is left, else the read bit set and a repeated START |
| ExtendedTwiState.SendNext | ExtendedWire/utility/extended_twi.c:642-672 | the definition of an acknowledged address or byte in a write: the next byte, or STOP when all are sent |
| ExtendedTwiState.Store | ExtendedWire/utility/extended_twi.c:688-690 | the definition of a byte received as master: stored at the index, which advances; an index past the buffer is recorded as an overrun |
| ExtendedTwiState.AckIfMore | ExtendedWire/utility/extended_twi.c:691-697 | the definition of the reply to a received address or byte: ACK while more bytes are expected, NACK otherwise |
| ExtendedTwiState.MasterIsr | ExtendedWire/utility/extended_twi.c:632-705 | the definition of the master half of `ISR(TWI_vect)`, one case per status, the bus error included (785-790) |
| ExtendedTwiState.SlaveAddressed | ExtendedWire/utility/extended_twi.c:708-717 | the definition of being addressed as a slave receiver: the receive buffer starts over and the address is ACKed |
| ExtendedTwiState.SlaveByte | ExtendedWire/utility/extended_twi.c:718-728 | the definition of a byte received as a slave: kept and ACKed while there is room, NACKed after |
| ExtendedTwiState.SlaveStop | ExtendedWire/utility/extended_twi.c:730-740 | the definition of STOP after a slave reception: a NUL after the data when there is room, the data delivered, READY again |
| ExtendedTwiState.SlaveSend | ExtendedWire/utility/extended_twi.c:766-775 | the definition of a byte sent as a slave: the next reply byte, with ACK expected while more remain |
| ExtendedTwiState.SlaveRequested | ExtendedWire/utility/extended_twi.c:749-765 | the definition of being addressed as a slave transmitter: the handler fills the reply, a single 0 when it supplies none, then its first byte goes out |
| ExtendedTwiState.SlaveIsr | ExtendedWire/utility/extended_twi.c:707-782 | the definition of the slave half of `ISR(TWI_vect)`, with the data a reception delivers |
| ExtendedTwiState.Isr | ExtendedWire/utility/extended_twi.c:630-792 | the definition of one interrupt: the master or the slave half by status |
| ExtendedTwiState.Run | ExtendedWire/utility/extended_twi.c:630-792 | the definition of a run of interrupts during a master transfer, taken in order |
| ExtendedTwiState.ReadFrom | ExtendedWire/utility/extended_twi.c:280-291 | the definition of `twi_readFrom`: the refused start gives 0 bytes, otherwise the interrupts run and `twi_getDataFromRead` hands back the bytes |
| ExtendedTwiState.ReadFromAt | ExtendedWire/utility/extended_twi.c:347-359 | the definition of `twi_readFromAt`, the same with a one-byte offset written first |
| ExtendedTwiState.ReadFromAt2 | ExtendedWire/utility/extended_twi.c:418-431 | the definition of `twi_readFromAt2` as written: 0 at once, touching nothing, unless the last transfer recorded no error |
| ExtendedTwiState.ReadFromAt2Intended | ExtendedWire/utility/extended_twi.c:418-431 | the definition of `twi_readFromAt2` without that check, as its siblings are |
| ExtendedTwiState.WriteTo | ExtendedWire/utility/extended_twi.c:482-494 | the definition of `twi_writeTo`: the refusal code, or the status the finished write recorded |
| ExtendedTwiState.BitRate | ExtendedWire/utility/extended_twi.c:185-206 | the definition of the SCL rate of a setting: F_CPU / (16 + 2 * TWBR * prescaler) |
| ExtendedTwiState.At | ExtendedWire/utility/extended_twi.c:668 | a read inside the buffer is the byte there; outside it the C code reads past the array, and the model gives 0 |
| ExtendedTwiState.Put | ExtendedWire/utility/extended_twi.c:690 | a write inside the buffer replaces exactly that byte; outside it the buffer is unchanged, and the length never changes |
| ExtendedTwiState.QuotientRange | ExtendedWire/utility/extended_twi.c:185-206 | for rates from 489 Hz to 1 MHz, F_CPU / rate lies between 16 and 32783 |
| ExtendedTwiState.DivisorBounds | ExtendedWire/utility/extended_twi.c:185-206 | TWBR = (F / rate - 16) / (2p) makes the divisor at most F / rate and more than F / rate - 2p, so the clock is not below the rate asked for |
| ExtendedTwi.Registers.SetAddress | ExtendedWire/utility/extended_twi.c:167-176 | TWAR holds the 7-bit address shifted left with the general-call bit cleared, and the rate registers are unchanged |
| ExtendedTwi.Registers.SetSpeed | ExtendedWire/utility/extended_twi.c:185-206 | the registers and the returned former rate are those `SetSpeed` defines; TWAR is unchanged |
| ExtendedTwi.Driver.constructor | ExtendedWire/utility/extended_twi.c:103-120 | `twi_init` leaves the engine as `Init` defines, with three fresh 32-byte buffers, TWBR set for 100 kHz and the prescaler bits cleared |
| ExtendedTwi.Driver.Status | ExtendedWire/utility/extended_twi.c:208-218 | returns the status `Status` defines and changes nothing |
| ExtendedTwi.Driver.GetDataFromRead | ExtendedWire/utility/extended_twi.c:220-231 | returns the count `GetDataFromRead` defines, copies exactly those bytes to the front of the caller's buffer and leaves the rest of it |
| ExtendedTwi.Driver.StartMaster | ExtendedWire/utility/extended_twi.c:246-268 | the engine becomes what `StartMaster` defines |
| ExtendedTwi.Driver.BeginReadFrom | ExtendedWire/utility/extended_twi.c:236-269 | the new engine and the code are those of `BeginReadFrom` |
| ExtendedTwi.Driver.BeginReadFromAt | ExtendedWire/utility/extended_twi.c:305-345 | the new engine and the code are those of `BeginReadFromAt` |
| ExtendedTwi.Driver.BeginReadFromAt2 | ExtendedWire/utility/extended_twi.c:373-416 | the new engine and the code are those of `BeginReadFromAt2` |
| ExtendedTwi.Driver.BeginWriteTo | ExtendedWire/utility/extended_twi.c:447-480 | the new engine and the code are those of `BeginWriteTo` on the caller's first `length` bytes |
| ExtendedTwi.Driver.Transmit | ExtendedWire/utility/extended_twi.c:509-532 | the new engine and the code are those of `Transmit` on the caller's first `length` bytes |
| ExtendedTwi.Copy | ExtendedWire/utility/extended_twi.c:466-469 | the copy loop overwrites the front of the buffer with the source bytes and keeps the rest |
| ExtendedTwi.Driver.Reply | ExtendedWire/utility/extended_twi.c:566-574 | `twi_reply` writes TWCR to go on with TWEA set or cleared |
| ExtendedTwi.Driver.Load | ExtendedWire/utility/extended_twi.c:637 | a byte written to TWDR is appended to the bus writes |
| ExtendedTwi.Driver.Stop | ExtendedWire/utility/extended_twi.c:598-611 | `twi_stop` sends a STOP and leaves the engine idle |
| ExtendedTwi.Driver.ReleaseBus | ExtendedWire/utility/extended_twi.c:619-628 | `twi_releaseBus` releases the bus and leaves the engine idle |
| ExtendedTwi.Driver.Isr | ExtendedWire/utility/extended_twi.c:630-792 | the interrupt handler changes the engine, and delivers received bytes, as `Isr` defines |
| ExtendedTwi.Driver.MasterIsr | ExtendedWire/utility/extended_twi.c:632-705 | the master cases of the handler change the engine as `MasterIsr` defines |
| ExtendedTwi.Driver.SendOffset | ExtendedWire/utility/extended_twi.c:642-652 | the acknowledged address is followed by the high offset byte for a two-byte offset, else the low one |
| ExtendedTwi.Driver.OffsetSent | ExtendedWire/utility/extended_twi.c:653-664 | an acknowledged offset byte is followed by the low byte, or by a repeated START with the read bit set |
| ExtendedTwi.Driver.SendNext | ExtendedWire/utility/extended_twi.c:665-673 | the next master byte is loaded and acknowledged, or a STOP sent when none is left |
| ExtendedTwi.Driver.StoreByte | ExtendedWire/utility/extended_twi.c:690 | a received byte is stored at the master index, which advances |
| ExtendedTwi.Driver.SlaveIsr | ExtendedWire/utility/extended_twi.c:707-782 | the slave cases other than being addressed for reading change the engine and deliver received bytes as `SlaveIsr` defines |
| ExtendedTwi.Driver.BeginSlaveTransmit | ExtendedWire/utility/extended_twi.c:749-756 | being addressed for reading makes the engine a slave transmitter with an empty reply |
| ExtendedTwi.Driver.HandleCalls | ExtendedWire/utility/extended_twi.c:757-759 | the transmit handler's calls of `twi_transmit` change the engine as `Handle` defines |
| ExtendedTwi.Driver.FinishSlaveTransmit | ExtendedWire/utility/extended_twi.c:760-775 | an empty reply becomes a single 0, and its first byte is sent |
| ExtendedTwi.Driver.SendReplyByte | ExtendedWire/utility/extended_twi.c:766-775 | the next reply byte is loaded and answered ACK while more remain |
| ExtendedTwi.Driver.Wait | ExtendedWire/utility/extended_twi.c:289 | spinning until the engine is idle handles the interrupts raised meanwhile, as `Run` defines |
| ExtendedTwi.Driver.Collect | ExtendedWire/utility/extended_twi.c:288-290 | after the interrupts, the call finishes exactly when the engine is idle, returning the count and copying the bytes `Collect` defines |
| ExtendedTwi.Driver.ReadFrom | ExtendedWire/utility/extended_twi.c:280-291 | `twi_readFrom` finishes exactly when `ReadFrom` has a result, and then returns its count and copies its bytes |
| ExtendedTwi.Driver.ReadFromAt | ExtendedWire/utility/extended_twi.c:347-359 | `twi_readFromAt` finishes exactly when `ReadFromAt` has a result, and then returns its count and copies its bytes |
| ExtendedTwi.Driver.ReadFromAt2 | ExtendedWire/utility/extended_twi.c:418-431 | `twi_readFromAt2` finishes exactly when `ReadFromAt2` has a result, and then returns its count and copies its bytes |
| ExtendedTwi.Driver.WriteTo | ExtendedWire/utility/extended_twi.c:482-494 | `twi_writeTo` finishes exactly when `WriteTo` has a result, and then returns its status |
| ExtendedWire.Clamp | ExtendedWire/ExtendedWire.cpp:130-132 | the quantity clamped to the 32-byte buffer is the quantity exactly when it fits, and 32 otherwise |
| ExtendedWire.QueueKeepsPrefix | ExtendedWire/ExtendedWire.cpp:323-335 | queueing bytes in master mode keeps the bytes already queued and appends the new ones up to the 32-byte buffer, dropping the rest |
| ExtendedWire.QueueAppend | ExtendedWire/ExtendedWire.cpp:346-352 | queueing two runs of bytes one after the other is queueing their concatenation |
| ExtendedWire.FlattenAppend | ExtendedWire/ExtendedWire.cpp:445-457 | the bytes of two groups of replies are the bytes of the first then of the second |
| ExtendedWire.FlattenSnoc | ExtendedWire/ExtendedWire.cpp:445-457 | the bytes of the first k + 1 replies are those of the first k, then reply k |
| ExtendedWire.Wire.Begin | ExtendedWire/ExtendedWire.cpp:75-88 | `begin()` allocates both 32-byte buffers with nothing unread and nothing queued, initialises the engine as `Init` defines, and leaves the handlers unset |
| ExtendedWire.Wire.BeginSlave | ExtendedWire/ExtendedWire.cpp:90-96 | `begin(address)` does the same, with TWAR holding the address shifted left |
| ExtendedWire.Wire.OnReceive | ExtendedWire/ExtendedWire.cpp:460-463 | registering the receive handler sets it and keeps the other |
| ExtendedWire.Wire.OnRequest | ExtendedWire/ExtendedWire.cpp:466-469 | registering the request handler sets it and keeps the other |
| ExtendedWire.Wire.SetSpeed | ExtendedWire/ExtendedWire.cpp:108-111 | the registers and the former rate are those `twi_setSpeed` gives |
| ExtendedWire.Wire.Status | ExtendedWire/ExtendedWire.cpp:113-120 | returns the engine's status and changes nothing |
| ExtendedWire.Wire.RequestFrom | ExtendedWire/ExtendedWire.cpp:127-142 | the read finishes exactly when `twi_readFrom` with the clamped quantity does; it returns its count and the unread bytes are exactly the bytes it read |
| ExtendedWire.Wire.RequestFromAt | ExtendedWire/ExtendedWire.cpp:149-163 | likewise for a read at a one-byte offset |
| ExtendedWire.Wire.RequestFromAt2 | ExtendedWire/ExtendedWire.cpp:170-184 | likewise for a read at a two-byte offset, the int offset taken modulo 2^16 |
| ExtendedWire.Wire.Fill | ExtendedWire/ExtendedWire.cpp:137-140 | the receive index is reset and the length set to the count read, the transmit side unchanged |
| ExtendedWire.Wire.KickoffRequestFrom | ExtendedWire/ExtendedWire.cpp:196-206 | the engine and code are those of `twi_beginReadFrom` with the clamped quantity; the asynchronous read is active exactly when it started; unread and queued bytes are unchanged |
| ExtendedWire.Wire.KickoffRequestFromAt | ExtendedWire/ExtendedWire.cpp:213-224 | likewise for a read at a one-byte offset |
| ExtendedWire.Wire.KickoffRequestFromAt2 | ExtendedWire/ExtendedWire.cpp:231-241 | likewise for a read at a two-byte offset |
| ExtendedWire.Wire.BeginTransmission | ExtendedWire/ExtendedWire.cpp:252-261 | master transmission mode with the address set and nothing queued |
| ExtendedWire.Wire.BeginTransmissionAt | ExtendedWire/ExtendedWire.cpp:268-272 | master transmission mode with the offset byte queued |
| ExtendedWire.Wire.BeginTransmissionAt2 | ExtendedWire/ExtendedWire.cpp:279-284 | master transmission mode with the high then the low byte of the offset queued |
| ExtendedWire.Wire.KickoffTransmission | ExtendedWire/ExtendedWire.cpp:291-305 | the engine and code are those of `twi_beginWriteTo` of the queued bytes; unless the engine was busy the queue is emptied and transmission mode left |
| ExtendedWire.Wire.EndTransmission | ExtendedWire/ExtendedWire.cpp:307-318 | finishes exactly when `twi_writeTo` of the queued bytes does, returning its status with the queue emptied and transmission mode left |
| ExtendedWire.Wire.Send | ExtendedWire/ExtendedWire.cpp:323-341 | in master mode the byte is queued unless the buffer is full; otherwise it is handed to `twi_transmit` |
| ExtendedWire.Wire.SendBytes | ExtendedWire/ExtendedWire.cpp:346-358 | in master mode the bytes are queued one by one up to the full buffer; otherwise they are handed to `twi_transmit` in one call |
| ExtendedWire.Wire.AsyncBufferUpdate | ExtendedWire/ExtendedWire.cpp:376-389 | the unread bytes become what the finished asynchronous read delivered, or stay while none has finished; the read stays active only while the engine is busy |
| ExtendedWire.Wire.Available | ExtendedWire/ExtendedWire.cpp:394-398 | returns the number of unread bytes after the update |
| ExtendedWire.Wire.Receive | ExtendedWire/ExtendedWire.cpp:403-417 | after the update, returns the first unread byte and consumes it, or 0 when nothing is unread |
| ExtendedWire.Wire.OnReceiveService | ExtendedWire/ExtendedWire.cpp:420-442 | with a receive handler set and nothing unread, the bytes received as a slave become the unread bytes and the handler is told their count; otherwise nothing changes |
| ExtendedWire.Wire.OnRequestService | ExtendedWire/ExtendedWire.cpp:445-457 | without a request handler nothing changes; otherwise the queue is reset and the handler's replies are handed to `twi_transmit`, or queued when in master transmission mode |
| ExtendedWire.Wire.QueueReplies | ExtendedWire/ExtendedWire.cpp:346-352 | in master transmission mode the handler's replies are queued one after another |
| ExtendedWire.Wire.TransmitReplies | ExtendedWire/ExtendedWire.cpp:353-357 | in slave mode each of the handler's replies is handed to `twi_transmit` in turn |
| ExtendedWire.Wire.Interrupt | ExtendedWire/utility/extended_twi.c:630-792 | an interrupt changes the engine as `Isr` defines with the handler's replies, and bytes delivered by a STOP become the unread bytes when the receive handler takes them |
| ExtendedWire.Wire.ServeRequest | ExtendedWire/utility/extended_twi.c:749-765 | being addressed for reading calls the request service and sends the reply it leaves |


## Left out

- **Hardware side effects.** The register side effects beyond the five TWI registers are not modelled: `cli()`/`sei()` critical sections, `sleep_mode()`, PRR power gating and `calloc` of the buffers in `twi_init`/`begin`. The buffers are arrays allocated by the constructor.
- **Pull-up configuration.** `twi_enable_pullup_resistors` and `enablePullupResistors` only drive port pins.
- **Unbounded waits on TWINT.** These waits in `TWIMaster` and the busy-wait loops of `twi_readFrom*`/`twi_writeTo` are not modelled as loops. Every started operation is assumed to complete. For the blocking calls, the model goes on once the first wait finds the engine READY.
- **Concurrency between the ISR and the foreground.** Interleaving and atomicity are not modelled. Each interrupt is one atomic step between foreground calls. So the model does not capture that `twi_transmit`, called outside the slave-transmit state, returns 2 after `noInterrupts()` without enabling interrupts again (ExtendedWire/utility/extended_twi.c:518-522). It models only the return code.
- **A slave interrupt arriving after `begin()` without an address.** This is not modelled. Such an interrupt needs a bus master that addresses a node with no address.
- **User callbacks** (`onReceive`, `onRequest`, `twiSlaveReceive`, `twiSlaveTransmit`). These are arbitrary foreign code. The model reduces them to a registered flag, the arguments they are handed, and the buffers or `send` calls they answer with, given as parameters. `twi_attachSlaveRxEvent` and `twi_attachSlaveTxEvent` only store the callback and are not modelled.
- **Duplicate entry points in `ExtendedWire`.** The `int` overloads of `requestFrom*`/`beginTransmission*`, `send(int)`, `send(char*)` and the `write`/`read` aliases forward to modelled members. They add nothing but a cast.
- **The CPU clock.** `F_CPU` is fixed at 16 MHz, the value the speed constants assume.
- ExtendedTwiState.SetSpeed: requires a positive rate. `twi_setSpeed(0)` divides by zero in C.
- **`TWIMaster` timing.** Dafny has no deadline for the waits, so the "bounded time" of a transaction is not modelled.
- FmtUtil.FormatDecimal: requires x to be above the most negative int32 only. For the int16 overload (FixNum/FmtUtil.cpp:83-85), x = -32768 is admitted, and the model formats its magnitude. In C, `x = -x` then overflows AVR's 16-bit `int`, which is undefined behaviour, so that case has no C result to match. `FixNum` never passes it: it formats only valid mantissas, which lie above `minValue` = -32767.
- **Signed overflow.** It is undefined behaviour in C and C++. The model treats it as avr-gcc's two's-complement wrap. This covers the `int32` product of Humidity/Humidity.cpp:108 (`Humidity.ProductWraps`), the 16-bit `int sum` of DS18B20 (`DS18B20.Wrap16`) and `DateTime::get` in 2068 (`DS3231Time.LongWrapsIn2068`).
- **DS3231 extras.** `enableInterrupts`, `disableInterrupts` and `getLastError` only write one control register or return a field. The model also leaves out the content of the `readRegister` buffer after an I2C error. The compile-time initial date of the constructor is not modelled either.
- DS3231Time.Date2Days: requires a month of at most 13. For a larger month the C loop reads past the 12-entry `daysInMonth` table, and the model gives that no value.
- **`Button` `pressed()`/`released()`.** They are declared in the header but not defined anywhere.
- **SHT1X.**
  - The float conversions `rdg2temp`/`rdg2rh` are not modelled; the readings are the raw 16-bit words.
  - The bit-banged pin timing (`DATA_*`, `CLOCK_*`, `_delay_us`, the `send_cmd` waveform) is reduced to the acknowledgements and bits the sensor returns.
  - `getTemp`, `getRH` and `getState` are declared in the header but not defined.
- **OneWire (DS18B20).** The library's `reset`, `skip`, `write`, `read` and `crc8` are foreign code. The presence pulse, the scratch-pad bytes and the computed CRC are parameters.
- **DS18B20 header mismatch.** The header declares `_index`, `QUEUE_SIZE` and `getLastError`, but the implementation uses `_head`, `_tail` and `DS18B20_SIZE`. The model follows the implementation, with a queue of 12 slots.
- **HIH6120 master objects.** The `TWIMaster` object that HIH6120 builds for each transaction is modelled as an abstract transaction whose STOP is logged. Its register save and restore is the one proved for `TwiMaster`.
- **DrawRSSI.** It is only a graphics call, and it computes its level from itself rather than from its argument.
- FixNum.Quot: requires a non-zero divisor when both operands are valid. There `operator /` (FixNum/FixNum.h:277-283) divides by zero, which is undefined behaviour in C, so there is no result to model.
- FixNum.FromInt: the multiplier is the exact 10^prec. For every declared typedef this is the C constant of type T (`FixNum.TypedefMultiplierFits`). An instantiation outside them whose multiplier does not fit in T is not modelled.
- **Header and implementation mismatches.** The model follows the implementation:
  - `Button.h:60` declares `long _time`, while `Button.cpp` uses a `Timeout _timeout` (Button/Button.cpp:15-22).
  - `SHT1X.h:64` declares `read_data(unsigned int*, byte*)`, but `SHT1X.cpp:197` defines `uint16_t read_data(uint8_t*)`. The fields `_raw_temp` and `_raw_rh` (SHT1X/SHT1X.h:77-78) are never used.
  - `HIH.cpp:68-69` calls `_temp.clear()` and `_rh.clear()`, but FixNum/FixNum.h:42 declares only `setInvalid()`. The model reads both calls as `setInvalid()`: `HIH.Retry` leaves `Invalid(Int16, 1)`.
  - `Humidity.cpp:94` takes `wvp_temp_t` and `wvp_rh_t`, but the header declares only `wvp_t`. The model gives the temperature two decimals and the humidity one, in 16 bits (`Humidity.IsTemp`, `Humidity.IsRh`).
- **Timeout default constructor.** Its zeroed static storage is taken as the disabled state.
- **Unintended behaviours modelled as written only.** For these there is no corrected version; each is stated by the lemma named:
  - `formatInvalid` never shifts (`FmtUtil.FormatInvalid`);
  - zero fill without FMT_SIGN drops the minus (`FmtUtil.ZeroFillDropsMinus`);
  - a 16th fraction digit overflows into FMT_SIGN (`FmtRef.FractionOverflowsIntoSign`);
  - `DateTime::get` wraps in 2068 (`DS3231Time.LongWrapsIn2068`);
  - widening an invalid FixNum makes it valid (`FixNum.WideningForgetsInvalid`).


## Findings

| source | as written | input that shows it | evidently intended | confidence | as-written member | corrected member |
|---|---|---|---|---|---|---|
| TWIMaster/TWIMaster.cpp:86 | every byte of `transmit`, data included, is checked against TW_MT_SLA_ACK (0x18) | address ACKed with 0x18, then a data byte ACKed with TW_MT_DATA_ACK (0x28): `transmit` returns 0x28 | data bytes checked against TW_MT_DATA_ACK | high, not executed | TwiMaster.TransmitRejectsDataAck | TwiMaster.TransmitCheckedAcceptsAcks |
| Button/Button.cpp:12-26 | the pin reading (a bool) is stored in the `State` enum, so pressed becomes DEBOUNCE (1) | pin reads pressed for longer than 50 ms: the state is DEBOUNCE and `operator bool` (state == DOWN) is false | pressed stored as DOWN | high, not executed | Button.PressNeverShows | Button.Button.CheckIntended |
| DS18B20/DS18B20.cpp:109 | `lo = min(hi, q[i])` | samples 1.0, 5.0 and 3.0 degrees: 3.0 is dropped as the low sample, not 1.0 | `lo = min(lo, q[i])` | high, not executed | DS18B20.LowIsNotMinimum | DS18B20.DS18B20.ComputeValueIntended |
| Humidity/Humidity.cpp:106-108 | the fractional part weights the floor's entry and its complement weights the next entry | 0.0 degrees and 50 percent: 3.283 mb, half the 1-degree entry | the fraction weights the next degree's entry | high, not executed | Humidity.WeightsSwapped | Humidity.IntendedWithinTable |
| Humidity/Humidity.cpp:108 | the interpolated pressure times `rh` overflows `int32` | 20.0 degrees and 100 percent: -18.092 mb | 23.371 mb, the saturation pressure | high, not executed | Humidity.ProductWraps | Humidity.IntendedScalesSaturation |
| DS3231/DS3231.cpp:188 | `return DateTime();` after an I2C error, and `DateTime()` (DS3231/DS3231.h:43) is an empty user-provided constructor, so the six fields are indeterminate | a failed read while the stack holds 09-12-26 12:34:56: `operator bool` reports a set time | the all-zero date-time the header comment promises, which is not set | medium, not executed | DS3231.FailedNowMayLookSet | DS3231.DS3231.NowIntended |
| HIH/HIH.cpp:51-52 | each field of a fetch is compared with itself | two verified fetches with different words: accepted, and the first words are kept | compare the first fetch with the second | high, not executed | HIH.DifferentDataAccepted | HIH.IntendedTakesAgreedData |
| HIH6120/HIH6120.cpp:24-34 | `_data` is overwritten by the first fetch before the pair is verified | a valid reading, then a pair whose second fetch differs: `getRH` reports the unverified words | keep the words only after verification | medium, not executed | HIH6120.UnverifiedWordsReported | HIH6120.IntendedKeepsVerified |
| ExtendedWire/utility/extended_twi.c:241-253 | a read of length 0 passes the length check and sets the last index to `length - 1`, 255 in `uint8_t` | `twi_beginReadFrom` with length 0: the first byte is ACKed and bytes are stored past the 32-byte buffer | refuse length 0, or NACK at once | medium, not executed | ExtendedTwiState.ZeroLengthRead | ExtendedTwiState.BeginReadFromIntendedFits |
| ExtendedWire/utility/extended_twi.c:418-431 | `twi_readFromAt2` returns 0 at once unless the previous transfer succeeded (`twi_error` is 0xFF), and `twi_error` starts as 0 | the first call after start-up, with the device answering: 0 bytes and no bus traffic | no test of `twi_error` before the transfer | medium, not executed | ExtendedTwiState.ReadFromAt2LockedOut | ExtendedTwiState.ReadFromAt2IntendedReturnsBytes |
| ExtendedWire/utility/extended_twi.c:202 | `(F_CPU / bps - 16) / 2` is stored in the 8-bit TWBR without choosing a prescaler | 10 kHz: TWBR becomes 24, a 250 kHz clock | choose the prescaler so the divisor fits | high, not executed | ExtendedTwiState.SlowSpeedWraps | ExtendedTwiState.SetSpeedIntendedRoundTrip |
