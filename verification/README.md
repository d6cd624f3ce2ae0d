# RP2040 SWIM programmer: a verified model

The programmer is RP2040 firmware plus a Python host. The host turns Intel HEX text into
memory and flash commands, sends them over USB, and the firmware carries them out on an
STM8 target over SWIM, a one-wire protocol whose waveforms are made and read by three small
PIO programs. This project models that chain in Dafny, layer by layer, and proves what each
layer promises to the one above it.

| file | what it models |
|---|---|
| `Pio.dfy` | the PIO instructions the three programs use, as an interpreter and as a machine with registers; the programs themselves |
| `Waveform.dfy` | the segment encoders, and the TX program under any DMA schedule |
| `RxDecode.dfy`, `RxWidth.dfy` | the two receive programs on arbitrary line traces; the C driver of the receivers |
| `TxFrame.dfy`, `Wire.dfy`, `Joint.dfy` | frames as segments; a frame sent and received; TX, RX, flag and target running together; the target's bits in real time |
| `Timing.dfy`, `Phy.dfy` | nanosecond and loop arithmetic, calibration, classification; the timing state of the PHY |
| `Wrappers.dfy`, `BitVectors.dfy`, `Crc.dfy`, `Usb.dfy` | options; bytes, words and bits; the CRC-32; USB request and response frames |
| `SwimFrame.dfy`, `Target.dfy`, `Link.dfy`, `Enter.dfy` | SWIM frames and parity; the target as an automaton; ROTF/WOTF transactions and chunking; entering SWIM |
| `Stm8.dfy`, `FlashController.dfy`, `Flash.dfy` | the STM8 memory and flash controller; what accesses do to it; the flash driver |
| `IntelHex.dfy`, `Firmware.dfy`, `HostLink.dfy`, `Programmer.dfy` | HEX text to image; command handling; the host's probe; the flash command end to end, entry included |

Code that updates state in the source is a class with methods here (the PIO machine, the
receiver driver, the PHY timing state, the USB port, the SWIM link, the enter sequence, the
flash driver, the firmware's service, the probe), each method proved against functions of
the old state, about which the lemmas speak.

## How the pieces are modelled

- **Wire.** One bit, wired-AND, without rise time or synchroniser delay. A TX tick is an
  integer number D >= 1 of system clocks. The DMA channel may have any number of words ready
  in any tick (a schedule is a list of numbers); the TX FIFO holds eight words.
- **Pad.** The SWIM pad is driven by a PIO block or by the processor, each with an output that
  is enabled or not; playing a waveform leaves PIO's output enabled, because the wait for an
  answer can end first. What releases the pad is what releases it in the source: the release
  on each way out of a PIO capture, the release after a bit, and `swim_phy_release`.
- **Target.** A target is either *conforming*, an automaton over a device under a list of
  faults, or *wild*, any list of replies whatever. A fault makes the target refuse a frame
  (busy, or damaged: it takes nothing and answers NACK), loses the frame, loses the answer, or
  inverts an odd number of bits of the answer. Inverting the single bit of an ACK turns it
  into a NACK; the long low of a NACK is not inverted. A command frame starts a new
  transaction in any phase; the address counter has 24 bits. After the list of faults nothing goes wrong.
- **Flash controller.** CR2 and NCR2 select a mode only as complements. In erase mode zeros
  written to all 64 locations of a block start its erase; in programming mode a byte written
  to an erased cell is programmed, and a cell that is not erased is left with an unspecified
  byte. A write without an unlocked flash or the right mode sets WR_PG_DIS. Work takes any
  number of IAPSR polls; HVOFF is set whenever no work is under way, so a poll alone does not
  prove that a trigger was accepted. Reading IAPSR clears EOP and WR_PG_DIS.
  The device has its own register map and mode bits, apart from the driver's constants.
- **The driver's assumption.** A trigger write that ends in NACK or timeout was still fully
  accepted. It is the predicate `FlashLog.TriggersTaken` over the log of link events, and every
  statement that an OK means success on the target names it.
- **Commands sent.** The probe keeps, as a ghost, the list of the commands it has sent that
  can change the target; the flash command is stated over it: what was sent is the plan for
  the file's picture, or a beginning of it.
- **Liveness.** "Undisturbed" means: no fault is to come and every synchronisation frame is
  measured; "healthy" adds that the controller is never busy for 2000 polls. On an undisturbed
  target the entry succeeds and changes two debug registers; on healthy hardware the transfers,
  the erase, the programming and the whole flash command, from the entry on, are proved to
  succeed, so the statements about success are not empty.

## What came out

- A segment lasts its requested ticks, but the one before the sentinel lasts one tick less,
  because `jmp !y` is skipped; the comment in `swim_waveform.pio` gives a uniform count.
- The PHY lets 16-bit frames through, but with the inter-frame gap such a frame has 33
  segments, one more than the encoder takes; it is refused, and 15 bits are the most
  (`Replay.FrameAccepted`, if and only if).
- The multi-bit decoder and capture-plus-classification part in a band between 8 and 8.5
  SWIM clocks, which is not empty (`Calibration.DisagreementExists`), and where a capture has
  nothing to report: a low beyond its budget, and a low of one system clock, which the decoder
  calls a one and the C code cannot read (`Calibration.DecoderRefinesClassify`, for every low
  and every budget; `RxDriver.OneClockUnread`).
- The width program samples the line in every second clock. A low is measured exactly if the
  line is high in the first clock after an odd low, or in the second after an even one
  (`RxWidth.MeasuredIff`); two lows of two clocks with one high clock between them are one
  width (`RxWidth.ShortGapMissed`).
- The ACK capture has a budget of 64 SWIM clocks. A NACK is read while the target's period
  has grown to no more than 3.15 times the calibrated one; from 3.3 times on it reads as no
  answer (`Calibration.SlowNackTimesOut`). Single-bit captures with enough budget stay right
  up to four times, the one-word decoder up to 3.85 times (`Answers.SaidIsRead`); from 4.6
  times on it takes every one for a zero (`Calibration.SlowOneMisread`).
- `erase_range` on a range that ends in the last 63 bytes below 2^32 rounds its end to 0,
  erases nothing and returns OK (`Flash.Driver.EraseRange`). It covers the range exactly if and
  only if the range ends at or below 2^32 - 64 (`EraseRanges.ExactIff`).
- `write_block` leaves CR2 set after a failed wait or a failed PRG setting: the clear after a
  failed wait is guarded by an empty message, which a failed wait never leaves. On an
  undisturbed link to an unlocked controller, for a block in the program flash, this happens
  if and only if the controller is busy for 2000 polls with one of the non-zero bytes
  (`Flash.Driver.WriteBlock`), and such a controller exists (`Flash.SlowController`). On a link
  without faults to any unlocked device, setting PRG fails if and only if the two registers do
  not read back; a part without NCR2 is one (`Flash.HalfSet`).
- A receive program that cannot be loaded leaves none loaded but keeps the name of the old one,
  so a later OK for that one does not mean that it is there. With the TX program alone beside
  them both receive programs always fit (`RxDriver.Receiver.SwitchProgram`).
- No PIO capture leaves the SWIM line held, so the last release of a failed entry only hands
  the pad back to the processor (`Enter.Session.Enter`).
- A HEX file that is refused reaches nothing: parse and range check come before the probe is
  used (`Programmer.CmdFlash`). Which files are accepted is given if and only if
  (`HexParser.AcceptedIff`).
- A frame heard in reverse order is read as its byte unless the straight order is accepted
  first (`SwimFrame.ReversedRead`), which happens exactly for a byte of odd parity, and after
  an ACK only if the byte is odd as well (`SwimFrame.ReversedTaken`).
- The 16-bit length guard of the write commands wraps, and is exact all the same
  (`Firmware.GuardExact`).
- `docs/protocol.md` describes flash commands as guarded; the code erases and programs, and
  the model follows the code.

## Model

| member | source | states |
|---|---|---|
| `Pio.StateMachine.Clock` | firmware/pio/swim_waveform.pio:21-42 | one clock of the machine with its registers in place does what the interpreter says for that instruction, a stalled instruction changing nothing |
| `Waveform.EncodeTickSegments` | firmware/src/swim_pio_waveform.c:263-288 | OK exactly for the lists whose length, levels, durations and total are acceptable; then the array holds one command word per segment and the total is the sum of the ticks |
| `Waveform.EncodeSegments` | firmware/src/swim_pio_waveform.c:232-261 | the same for microsecond segments: OK exactly for acceptable lists, and then the commands are those of ten ticks a microsecond |
| `Waveform.MicroTimes` | firmware/src/swim_pio_waveform.c:17 | at the rate of ten million ticks a second each segment lasts its microseconds |
| `Waveform.EntryLasts` | firmware/src/swim_phy.c:65-88 | the entry waveform is accepted by the encoder and lasts 6016 us after 10 us released |
| `TxEngine.EmitTick` | firmware/pio/swim_waveform.pio:21-42 | a DMA transfer and one instruction on the register machine are one tick of a run |
| `TxEngine.Emit` | firmware/pio/swim_waveform.pio:21-42 | the machine stepped over a whole DMA schedule shows the line, the flags raised and the words left that the run function gives |
| `TxEngine.TickKeeps` | firmware/pio/swim_waveform.pio:21-42 | every tick, after any DMA activity, keeps the invariant that ties program counter, registers, FIFO and elapsed ticks to the segment being driven |
| `TxEngine.WireIsHolds` | firmware/pio/swim_waveform.pio:21-42 | the line, tick by tick, is the concatenation of the recorded holds |
| `TxEngine.TransmitsAsListed` | firmware/pio/swim_waveform.pio:21-42 | for every encodable list and every DMA schedule: the listed levels in order, each for its requested ticks plus its starved ticks (the last one tick less), then released; IRQ0 at most once, only after the release, and exactly when total plus six productive ticks have passed |
| `TxEngine.EagerNeverStalls` | firmware/src/swim_pio_waveform.c:315-323 | if the DMA channel always has a word to offer, no segment is lengthened |
| `TxEngine.EagerIsIdeal` | firmware/pio/swim_waveform.pio:21-42 | then the line is the requested waveform tick for tick, released from then on, and IRQ0 is up in the first released tick |
| `RxDecode.Listen` | firmware/pio/swim_rx_decode.pio:13-41 | the register machine running the decode program over a line reaches the state the watching function gives |
| `RxDecode.BitDecodes` | firmware/pio/swim_rx_decode.pio:21-39 | one low of any length on any line: the bit shifted in is 1 exactly if it had at most `threshold` low samples, and the machine is ready for the next bit if and only if the following high is at least its loop overhead |
| `RxDecode.PulsesDecode` | firmware/pio/swim_rx_decode.pio:21-39 | from the first falling edge on, a separated pulse train is decoded bit by bit into ISR |
| `RxDecode.ArmedParks` | firmware/pio/swim_rx_decode.pio:14-19 | three clocks after arming, at any line levels, the machine is parked at the IRQ wait with both parameters |
| `RxDecode.ParkedStays` | firmware/pio/swim_rx_decode.pio:18 | parked, it does not look at the line |
| `RxDecode.DecodesWord` | firmware/pio/swim_rx_decode.pio:13-41 | woken by IRQ0, on separated pulses it pushes exactly one word whose low bits, first pulse on top, are the pulses' bits |
| `RxWidth.Listen` | firmware/pio/swim_rx_width.pio:18-42 | the register machine running the width program over a line reaches the state the watching function gives |
| `RxWidth.ArmedParks` | firmware/pio/swim_rx_width.pio:19-24 | armed for one width, the machine parks in three clocks at any line levels |
| `RxWidth.CapturesLine` | firmware/pio/swim_rx_width.pio:26-40 | on every line that begins low the word pushed is the budget less the low samples before the first high one, or the wrapped counter if they outlast the budget |
| `RxWidth.AlwaysSampled` | firmware/pio/swim_rx_width.pio:26-40 | a line long enough always has such a first high sample or outlasts the budget, so a word is always pushed |
| `RxWidth.CapturesWidth` | firmware/pio/swim_rx_width.pio:26-40 | a low of any length pushes the unused budget, if the line is high in the first clock after an odd low or the second after an even one; a low that outlasts the budget pushes the wrapped counter without ever ending |
| `RxWidth.MeasuredIff` | firmware/pio/swim_rx_width.pio:26-40 | on a line long enough a low within the budget is measured if and only if its gap is sampled |
| `RxWidth.ShortGapMissed` | firmware/pio/swim_rx_width.pio:26-40 | a concrete line on which two lows of two clocks, one high clock apart, are reported as one width |
| `RxWidth.MeasuresLine` | firmware/pio/swim_rx_width.pio:18-42 | from the IRQ wake-up on, after two clocks at any level and any idle time, every line that begins low is measured as `CapturesLine` says |
| `RxWidth.MeasuresPulse` | firmware/pio/swim_rx_width.pio:18-42 | one low of any length with a gap that is sampled, from the IRQ wake-up on, after any idle time of two clocks or more |
| `RxDriver.UsedLoopsExact` | firmware/src/swim_pio_rx.c:246-257 | the reported loops are the low samples (half the clocks, rounded down) when they fit the budget, and 0 when they do not: an overlong low is never reported as a short one |
| `RxDriver.OneClockUnread` | firmware/src/swim_phy.c:675-695 | a low of one clock is a one for the decoder at any threshold, but no loops in a width capture, which the C code cannot read |
| `RxDriver.Receiver.SwitchProgram` | firmware/src/swim_pio_rx.c:72-107 | OK exactly if initialised and the program is the current one or fits in the instruction memory; a switch leaves empty FIFOs and a disabled machine; a failed one has removed the old program, so a later OK means loaded exactly if it was loaded or has been switched to; beside the TX program alone both always fit |
| `RxDriver.Receiver.ArmWidth` | firmware/src/swim_pio_rx.c:180-207 | OK exactly for a budget of 1 to 2^31 - 1 with the program current or fitting; then the machine is restarted, IRQ0 cleared and the two parameters queued |
| `RxDriver.Receiver.ArmDecode` | firmware/src/swim_pio_rx.c:411-435 | OK exactly for 1 to 31 bits, a threshold of at least 1 and the program current or fitting; then the machine is armed as the decoder lemmas require |
| `RxDriver.Receiver.GetWidth` | firmware/src/swim_pio_rx.c:223-261 | a timeout report without a word; otherwise the machine is stopped, the word taken, and for the word a low of any length pushes the report holds the low samples within the budget and the nanoseconds they last, in agreement with its microseconds |
| `RxDriver.Receiver.GetDecodedBits` | firmware/src/swim_pio_rx.c:456-483 | bad argument exactly for 0 or more than 31 bits; of the word taken from the FIFO exactly the requested low bits are returned, and a word that fits is returned unchanged |
| `Timing.ConversionsFit` | firmware/src/swim_pio_rx.c:157-178 | no 64-bit intermediate of either conversion overflows and both results fit 32 bits, for all 32-bit arguments |
| `Timing.LoopRoundTrip` | firmware/src/swim_pio_rx.c:157-178 | nanoseconds to loops and back is at least the input and exceeds it by at most one loop plus half a nanosecond of rounding, unless clamped |
| `Timing.AcceptedTswim` | firmware/src/swim_phy.c:356-368 | an accepted sync width gives a SWIM clock of 55 to 2344 ns, within half a nanosecond of width / 128 |
| `Timing.ClassifyExactly` | firmware/src/swim_phy.c:675-695 | a non-zero width is always classified, as a one exactly below nine clocks less half a clock of rounding |
| `Timing.MeasuredWithin` | firmware/src/swim_pio_rx.c:170-178 | a time sampled with edges anywhere within a clock is measured to within -20.5 and +10.5 ns at 100 MHz or more |
| `Calibration.CalibratedClock` | firmware/src/swim_phy.c:356-368 | from any accepted sync pulse the derived clock is within 0.66 ns of the true period |
| `Calibration.NominalTarget` | firmware/src/swim_phy.c:356-368 | a nominal 8 MHz target calibrates to 125 ns, so the calibration lemmas speak about real cases |
| `Calibration.CalibratedBits` | firmware/src/swim_phy.c:675-695 | for every period between a half and four times the calibrated one, every captured bit is classified as the bit it is |
| `Calibration.ReceivedBits` | firmware/src/swim_pio_rx.c:246-257 | with a loop budget: the bit if its low fits the budget, and no answer otherwise; a long zero is never a one |
| `Calibration.AckReads` | firmware/src/swim_phy.c:650-673 | through the 64-clock ACK capture a one is read up to four times and a zero up to 3.15 times the calibrated period |
| `Calibration.SlowNackTimesOut` | firmware/src/swim_phy.c:650-673 | from 3.3 times the calibrated period on every NACK reads as no answer |
| `Calibration.DecoderReads` | firmware/src/swim_phy.c:1048-1052 | the decoder with the firmware's threshold decides every bit rightly between a half and 3.85 times the period |
| `Calibration.SlowOneMisread` | firmware/src/swim_phy.c:1048-1052 | from 4.6 times the calibrated period on every one is decoded as a zero |
| `Calibration.DecoderRefinesClassify` | firmware/src/swim_phy.c:675-695 | for every low and every budget: what the decoder calls a one, classification calls a one if and only if the capture has a sample of it within its budget, and otherwise it cannot read the low; a low that is captured is judged differently exactly when the decoder says zero and the width is below 8.5 clocks, and then it is at least 8 |
| `Calibration.DisagreementExists` | firmware/src/swim_phy.c:1048-1052 | a concrete width on which the two part |
| `Answers.SaidIsRead` | firmware/src/swim_phy.c:1048-1052 | for every period between a half and 3.85 times the calibrated one, the pulses of any bits, their edges anywhere within a clock, are separated and mean those bits |
| `Answers.SaidIsReceived` | firmware/src/swim_phy.c:844-890 | the whole exchange in real time: calibrated, armed with the firmware's threshold, the host's frame sent at any divider, the target's bits are the one word pushed |
| `Answers.WordHeard` | firmware/src/swim_phy.c:890-932 | the bits of the word pushed, least significant first, are the received bits with the last one in front, for any number of bits |
| `Answers.FrameHeard` | firmware/src/swim_phy.c:890-932 | a frame that was said, ACK or header first, is a word whose 11 or 10 low bits the PHY accepts and the link reads as its byte |
| `Answers.ByteReceived` | firmware/src/swim_phy.c:844-932 | the whole way of a byte in real time: from the calibrated target's pulses over both PIO programs and the word pushed to the byte the link reads |
| `PhyTiming.ReadyInRange` | firmware/src/swim_phy.c:1212-1241 | after any sequence of timing calls, a PHY that says it is calibrated holds a clock of 55 to 2344 ns |
| `PhyTiming.ReadyIsSafe` | firmware/src/swim_phy.c:861-867 | in that range no 32-bit product overflows, the tick-rate guards never fire, no receive budget is clamped, and for every word the ACK capture can push the rounding of its width stays within 32 bits |
| `PhyTiming.Phy.RecordSync` | firmware/src/swim_phy.c:356-368 | the clock of a measured width is its 128th part, rounded, the speed is low, and the PHY stays in range |
| `PhyTiming.Phy.EntrySequenceWaitSync` | firmware/src/swim_phy.c:387-423 | true exactly for a capture that ended in time with a width above 7 us and up to 300 us, of which the clock is recorded; otherwise the state is unchanged |
| `PhyTiming.Phy.EntryCapture` | firmware/src/swim_phy.c:387-423 | from the receiver on: if the captured width is that of 128 periods of a target, as the width program pushes it, and it is accepted, the PHY is calibrated to that target at low speed |
| `PhyTiming.NominalRecorded` | firmware/src/swim_phy.c:356-368 | the nominal synchronisation of 16 us is accepted and recorded as a clock of 125 ns |
| `PhyTiming.Phy.PollSync` | firmware/src/swim_phy.c:457-492 | true exactly if a low of 12 to 300 us is among those polled; the first one is recorded, otherwise the state is unchanged |
| `PhyTiming.Phy.CommResetSync` | firmware/src/swim_phy.c:494-555 | calibrated: true exactly for a capture with a width above 7 us and up to 300 us, which is recorded; not calibrated: true exactly if a low of 12 to 300 us was polled, the first of which is recorded; otherwise the state is unchanged |
| `PhyTiming.Phy.SelectSpeed` | firmware/src/swim_phy.c:172-183 | high speed is refused exactly without a calibrated clock; nothing but the speed changes |
| `PhyTiming.Phy.Release` | firmware/src/swim_phy.c:152-163 | after a release the PHY is no longer calibrated, and nothing else changes |
| `TxFrame.BuildTxFrameSegments` | firmware/src/swim_phy.c:699-757 | accepted exactly for 1 to 32 bits; the segment array is, bit by bit from the top, the lows and highs of the frame after the optional gap |
| `TxFrame.BitLasts` | firmware/src/swim_phy.c:332-340 | every bit is a low and then a release, together 22 SWIM clocks at low speed and 10 at high speed; the low of a one and the release of a zero last two; the gap before a frame lasts as long as a bit |
| `TxFrame.PackOfBits` | firmware/src/swim_phy.c:809-816 | the bits of a word, packed most significant first, are the word |
| `Replay.FrameAccepted` | firmware/src/swim_pio_waveform.c:263-288 | the encoder accepts a frame if and only if it has at most 15 bits after a gap, or 16 without one |
| `Replay.FrameLine` | firmware/src/swim_phy.c:699-757 | the line of a frame under an eager channel is an idle stretch and one pulse a bit, the last gap one tick short |
| `Replay.BitTimes` | firmware/src/swim_phy.c:332-340 | on the line each bit lasts what UM0470 gives a host bit, in system clocks: the low and the release of a one or a zero at the calibrated period, 176 ticks in all |
| `Replay.LastTimes` | firmware/pio/swim_waveform.pio:21-42 | the release of the last bit is one tick shorter, before the line stays released |
| `Replay.ThresholdFits` | firmware/src/swim_phy.c:878-898 | the firmware's threshold lies between a one's and a zero's samples for the integer divider of its own tick rate |
| `Replay.FrameDecodes` | firmware/src/swim_phy.c:699-757 | the pulses of any frame are separated at every divider, and mean its bits |
| `Replay.WireRoundTrip` | firmware/src/swim_phy.c:878-898 | a frame built, encoded, run through the TX program and replayed at any allowed divider to a decoder with the firmware's threshold comes out as the word that went in |
| `Joint.RunKeeps` | firmware/src/swim_pio_waveform.c:796-869 | both machines, with either receive program, the flag, the DMA channel and an arbitrary target running together keep their joint invariant in every clock, for every divider |
| `Joint.NeverHearsHost` | firmware/src/swim_pio_waveform.c:375-421 | once armed for a width or for bits, the receiver does not look at the line until the host has released it for good, and IRQ0 goes up only then |
| `Joint.SeesTarget` | firmware/src/swim_pio_waveform.c:825-861 | after the release the receiver sees the line the target alone makes |
| `Joint.ReplyDecoded` | firmware/src/swim_pio_waveform.c:796-869 | the whole exchange of a multi-bit answer: if the target answers with separated pulses after three idle clocks, exactly one word is pushed and it is the target's |
| `Joint.LineMeasured` | firmware/src/swim_pio_waveform.c:582-656 | the whole exchange of a width, on every line the target makes: what is pushed is the budget less the low samples before the first high one, or the wrapped counter |
| `Joint.PulseMeasured` | firmware/src/swim_pio_waveform.c:582-656 | the same for an ACK or a synchronisation pulse: one low of any length after two idle clocks, with a gap that is sampled, is measured against the budget |
| `Joint.FlagRises` | firmware/src/swim_pio_waveform.c:404-416 | at any divider an eager DMA channel has IRQ0 raised once the list's total of ticks and six more have passed |
| `Joint.RaisingClock` | firmware/src/swim_pio_waveform.c:404-416 | and one clock raises it, so both exchanges do begin |
| `Crc.FeedXor` | firmware/src/usb_protocol.c:18-28 | the register is linear in state and fed bits |
| `Crc.FeedInjective` | firmware/src/usb_protocol.c:18-28 | the register after some bits, and those bits, determine the register before them |
| `Crc.WindowRecovered` | firmware/src/usb_protocol.c:18-28 | 32 bits fed from one register to one register are determined by the two |
| `FrameCheck.ComputeCrc` | firmware/src/usb_protocol.c:18-28 | the byte-and-bit loops compute the CRC of the bits in wire order |
| `FrameCheck.PassesIffResidue` | firmware/src/usb_protocol.c:52-61 | a trailer is the CRC of the body if and only if the register after both is one fixed residue |
| `FrameCheck.OwnCrcIsConstant` | firmware/src/usb_protocol.c:18-28 | the CRC of any message followed by its own CRC is 0x2144DF1C |
| `FrameCheck.BurstDetected` | firmware/src/usb_protocol.c:52-61 | of two different frames of one length, any length, that differ only within 32 consecutive wire bits, trailer included, at most one passes the check |
| `Usb.RequestAccepted` | host/protocol.py:97-102 | the firmware parses every frame the host encodes, byte for byte, whatever follows it on the line |
| `Usb.HeaderBytes` | firmware/src/usb_protocol.h:8 | on the line a frame begins with the four letters RPWS, the version 1 and the command |
| `Usb.AcceptedIsRequest` | firmware/src/usb_protocol.c:30-62 | and what it accepts is exactly such a frame |
| `Usb.BurstRefused` | firmware/src/usb_protocol.c:30-62 | a request hit by a burst of at most 32 wire bits that leaves the two bytes of its length alone is refused, whatever follows it |
| `Usb.Port.ReadExact` | firmware/src/usb_protocol.c:7-16 | n bytes taken in order, or a timeout exactly if fewer arrive |
| `Usb.Port.ReadFrame` | firmware/src/usb_protocol.c:30-62 | the reader returns what the parse of the input says and leaves the rest |
| `Usb.Port.WriteResponse` | firmware/src/usb_protocol.c:64-94 | exactly the bytes of the response are appended to the output |
| `Usb.ResponseRoundTrip` | host/protocol.py:105-122 | every response the firmware writes decodes to its command with the reply bit, sequence number, status and payload |
| `Usb.ReplyBit` | firmware/src/usb_protocol.c:64-94 | of the command byte of a response the top bit is set and the other seven are those of the command |
| `Usb.DecodedIsResponse` | host/protocol.py:105-122 | and whatever the host decodes is byte for byte a response with the decoded fields, of this version, with a known status and its own CRC |
| `Usb.ResponseBurstRefused` | host/protocol.py:105-122 | a response hit by a burst of at most 32 wire bits anywhere does not decode |
| `SwimFrame.ParityIsOdd` | firmware/src/swim_bits.h:6-11 | the three folds of the parity function compute the parity of the eight bits |
| `SwimFrame.OddFlipsRefused` | firmware/src/swim_phy.c:1012-1030 | a target frame with an odd number of inverted bits, first or later, is refused in both bit orders |
| `SwimFrame.IntactRead` | firmware/src/swim_phy.c:818-842 | an intact frame is accepted directly and read as the byte that was sent |
| `SwimFrame.ReversedRead` | firmware/src/swim_phy.c:912-923 | an intact frame heard in reverse order is read as its byte, unless the straight order is accepted first |
| `SwimFrame.ReversedTaken` | firmware/src/swim_phy.c:912-923 | which happens exactly for a byte of odd parity, and in a frame that begins with an ACK exactly for an odd byte of odd parity |
| `SwimFrame.RecheckPasses` | firmware/src/swim_link.c:73-87 | the link's own check of header and parity never fails on what the PHY let through |
| `SwimFrame.ReverseLowBits` | firmware/src/swim_phy.c:809-816 | the loop reverses the low bits of a word |
| `SwimFrame.FrameOfWordIs` | firmware/src/swim_phy.c:1012-1030 | the shifts and masks on a 10-bit word accept it exactly if its bits are a frame with header and parity, and return those bits |
| `SwimFrame.AckFrameOfWordIs` | firmware/src/swim_phy.c:818-842 | the same for an 11-bit word with the ACK on top |
| `SwimFrame.DecodeWord` | firmware/src/swim_phy.c:911-922 | the two attempts on a captured word, straight and reversed, give exactly what the frame check says of its bits |
| `SwimFrame.HostWordBits` | firmware/src/swim_link.c:65-66 | the word built for a byte has parity, data and a zero header as its bits |
| `SwimFrame.CommandRead` | firmware/src/swim_link.c:52 | a conforming target reads every command frame as its command |
| `Stm8.PlainWrite` | firmware/src/stm8_dm.c:38-52 | in plain memory a run of writes stores exactly its bytes and changes nothing else |
| `Stm8.SilentRead` | firmware/src/stm8_dm.c:22-36 | a run of reads outside the registers returns what is there and changes nothing |
| `Stm8.WriteThenRead` | firmware/src/swim_link.c:323-382 | written data read back, and no other address has changed |
| `Stm8.PrefixWritten` | firmware/src/swim_link.c:359-382 | a write cut short leaves a prefix of the data and then the old bytes |
| `Stm8.ModesSelect` | firmware/src/stm8_flash.c:23-25 | the values that the driver writes to CR2 and, inverted, to NCR2 select the device's programming, erase and option modes, and nothing else does |
| `Link.AddressSent` | firmware/src/swim_link.c:371-376 | the three address bytes put together again are the low 24 bits of the address |
| `Link.AnswerRead` | firmware/src/swim_phy.c:890-932 | what the PHY makes of an answer under any fault is nothing or the frame of the byte that was read, and without a fault it is the frame |
| `Link.SwimLink.Transfer` | firmware/src/swim_pio_waveform.c:796-869 | a frame or bit played by PIO is one exchange with the target; afterwards the line is released and the processor has the pad |
| `Link.SwimLink.WriteBit` | firmware/src/swim_phy.c:557-584 | without a clock nothing happens; otherwise the bit reaches the target and the line is released again |
| `Link.SwimLink.CommResetWaitSync` | firmware/src/swim_phy.c:494-555 | true exactly if the synchronisation is measured, with the clock known at low speed; whatever happens the line is not left held |
| `Link.SwimLink.SendCommand` | firmware/src/swim_link.c:47-58 | an OK means the target took the command; the device is unchanged; with a clock the status is what the fault of the exchange makes of it, OK, NACK or timeout |
| `Link.SwimLink.SendByte` | firmware/src/swim_link.c:60-71 | an OK means the target took the byte; without one it took it or did not; for a byte that the target takes the status is what the fault makes of it, OK without one |
| `Link.SwimLink.DecodeFrame` | firmware/src/swim_link.c:73-107 | a missing frame is a timeout, a good one its byte, and for a bad one a NACK bit is sent to the target |
| `Link.SwimLink.RecvByteAfterAck` | firmware/src/swim_link.c:96-107 | an OK returns the byte the target read at the next address |
| `Link.SwimLink.AckLast` | firmware/src/swim_link.c:352 | the bit after the last byte makes an undisturbed target end the transaction: it is idle; the device is unchanged |
| `Link.SwimLink.Write` | firmware/src/swim_link.c:359-382 | bad length refused; on a conforming target exactly the first `taken` bytes are in the device, all of them if OK, and then the target is idle again; without faults it is OK |
| `Link.SwimLink.Read` | firmware/src/swim_link.c:323-357 | bad length refused; on a conforming target under any odd-bit noise an OK returns exactly the bytes the device gave; without faults it is OK and the target is idle again |
| `Link.SwimLink.DmWrite` | firmware/src/stm8_dm.c:38-52 | OK: one transaction for each 64 bytes in address order, after which the target is idle; error: whole transactions and one that stopped; the device holds exactly the first `taken` bytes |
| `Link.SwimLink.DmRead` | firmware/src/stm8_dm.c:22-36 | OK: one transaction for each 64 bytes in address order, returning the device's bytes; without faults it is OK and the target is idle again |
| `Link.TransferRoundTrip` | firmware/src/swim_link.c:323-382 | chunked write then chunked read of plain memory of any length below 2^24 returns the data and changes no other address |
| `Link.TransferPrefix` | firmware/src/stm8_dm.c:38-52 | however a chunked write ends, the memory holds a prefix of the data followed by the old bytes |
| `Enter.Session.HandleSwimCsr` | firmware/src/swim_link.c:156-188 | OK: SWIM_CSR was written with 0xA0 (the first time), read back, and SWIM_DM was seen set; the stages stay in order; on an undisturbed target it is OK and changes only that register |
| `Enter.EnteredBits` | firmware/src/swim_link.c:14-23 | after a successful entry exactly bits 7 and 5 of SWIM_CSR are set, and of DM_CSR2 bit 3 is set and the others are as they were |
| `Enter.Session.ReleaseResetAndResync` | firmware/src/swim_link.c:190-203 | NRST is released, and OK means the second sync came after it |
| `Enter.Session.StallTarget` | firmware/src/swim_link.c:133-154 | OK means an acknowledged write of DM_CSR2 with STALL set, which a conforming target then has; one to three attempts, three if it fails; nothing else is touched |
| `Enter.Session.Enter` | firmware/src/swim_link.c:205-272 | against any target: the stages are those of the one order up to some point, closed by FAIL unless complete; at every return NRST is released and the SWIM pad is the processor's input; OK means reset asserted and released with the line free, low speed, SWIM_CSR verified, a second sync, SWIM_DM seen again, and an acknowledged STALL; of a conforming device at most the two debug registers change; an undisturbed target gives OK with a known clock and exactly the two registers set |
| `FlashController.PollSettles` | firmware/src/stm8_flash.c:88-128 | a poll of IAPSR brings the controller closer to where it settles, and EOP or HVOFF shows that it has |
| `FlashController.EraseSequence` | firmware/src/stm8_flash.c:316-329 | zeros written to the 64 locations of a block in order start the erase of exactly that block |
| `FlashController.WorkReached` | firmware/src/stm8_flash.c:405-439 | an operation started in a mode, awaited, and the mode left, has stored its bytes and changed no other memory |
| `FlashController.ByteProgrammed` | firmware/src/stm8_flash.c:401-433 | one more non-zero byte programmed into erased flash extends the programmed prefix by that byte |
| `Flash.Driver.SetCr2` | firmware/src/stm8_flash.c:130-157 | attempts exactly one CR2 operation; OK means CR2 and its complement were read back as written; on a link without faults to any device it is OK if both read back and a target error if not |
| `Flash.Driver.RequireProgramUnlocked` | firmware/src/stm8_flash.c:163-179 | one read of IAPSR decides: its own error, OK if it shows PUL, a target error if it does not; the device only settles |
| `Flash.Driver.WaitFlashComplete` | firmware/src/stm8_flash.c:88-128 | OK means the last poll showed EOP or HVOFF and no refusal, the device has settled and had refused nothing; a failure always leaves a message; an undisturbed controller that refused nothing gets OK if it is busy for less than 2000 polls and a target error otherwise, and one that refused gets a target error |
| `Flash.Driver.AfterTrigger` | firmware/src/stm8_flash.c:331-348 | after NACK, timeout, or where the caller asks for it, exactly one communication reset and nothing else; the device is unchanged and a failure leaves a message |
| `Flash.Driver.EraseBlock` | firmware/src/stm8_flash.c:316-368 | the last CR2 operation is the clear, and after OK normal mode was read back; under the assumption exactly that block has become zero |
| `Flash.Driver.EraseRange` | firmware/src/stm8_flash.c:288-371 | whenever it touched CR2 its last CR2 operation was the clear, read back on OK; its writes are the blocks of the rounded range, each once, ascending (a prefix of them on error); under the assumption exactly those bytes became zero; healthy hardware gets OK; on a link without faults a locked flash gets a target error and a range that ends beyond 2^32 a bad argument, without a write; one that ends in the last 63 bytes below 2^32 is answered with OK without a write |
| `EraseRanges.ExactIff` | firmware/src/stm8_flash.c:303-309 | the erased blocks are exactly those that overlap the range if and only if the range ends at or below 2^32 - 64 |
| `EraseRanges.WrapErasesNothing` | firmware/src/stm8_flash.c:303-309 | a range that ends in the last 63 bytes below 2^32 erases no block |
| `Flash.Driver.ProgramByte` | firmware/src/stm8_flash.c:401-433 | one byte: triggered, recovered, awaited; CR2 is cleared on a failed trigger and left set on a failed wait |
| `Flash.Driver.WriteBlock` | firmware/src/stm8_flash.c:373-450 | CR2 ends cleared exactly unless setting PRG or a wait failed; on OK normal mode was read back, the non-zero bytes were written once each in ascending order, and under the assumption erased flash holds the data; on every exit a prefix of those writes was made, in order; healthy hardware gets OK; on an undisturbed link to an unlocked controller the wait fails with a target error, PRG staying set, if and only if one of the non-zero bytes outlasts 2000 polls; on a link without faults to any device it is refused with a target error if PUL is not shown, and setting PRG fails if and only if PUL is shown and the mode does not read back |
| `Flash.SlowController` | firmware/src/stm8_flash.c:431-440 | a concrete controller on which writing one byte fails and leaves CR2 = PRG |
| `Flash.HalfSet` | firmware/src/stm8_flash.c:394-398 | a concrete device, one without NCR2, on which setting PRG fails and CR2 stays PRG |
| `Flash.Driver.UnlockEeprom` | firmware/src/stm8_flash.c:195-217 | the two keys were sent in order, or only the first, or none; OK means DUL is set and only the unlocking state has changed; on healthy hardware whose option area is unlocked or can be, it is OK |
| `Flash.Driver.WriteOptionByte` | firmware/src/stm8_flash.c:219-285 | addresses outside the option area are refused untouched; it sends the keys and then, once or never, the one byte, on OK once; whenever it touched CR2 its last CR2 operation was the clear, read back on OK; a failure leaves a message; under the assumption the option byte is stored and no other memory changed; healthy hardware gets OK |
| `HexRecords.RecordRead` | host/ihex.py:31-53 | a checksummed rendering of any record, each digit in either case, with any blanks and tabs around it, is read as that record |
| `HexRecords.LineReadIff` | host/ihex.py:28-53 | and only such a line: it is read as a record if and only if it is a colon and the digits of that record and its checksum |
| `HexMaps.CollectDescribes` | host/ihex.py:55-61 | the bytes conflict if and only if one address is given two of them; otherwise the map is exactly what they say |
| `HexMaps.OrderIrrelevant` | host/ihex.py:55-61 | only which bytes are placed matters, not in which order |
| `HexParser.ParseIhex` | host/ihex.py:23-79 | the loop over lines and records computes the parse, with the first error it meets; which texts the parse accepts, and as which map, is `HexParser.AcceptedIff` |
| `HexParser.AcceptedDescribes` | host/ihex.py:23-79 | an accepted text consists of checksummed records, blank lines aside, with the first EOF record at its end, of a type and length the format knows; its map is exactly what its data records say |
| `HexParser.AcceptedIff` | host/ihex.py:23-79 | a text is accepted as a map if and only if it is such a text of records that describe that map; so a wrong checksum, a missing EOF, a text after it, an unknown record and a conflict are all refused |
| `HexParser.BaseSet` | host/ihex.py:64-71 | a record of type 2 sets the base to 16 times the number in its two bytes, high byte first, and one of type 4 to 65536 times that, whatever its offset and whatever came before |
| `HexParser.RenderingRead` | host/ihex.py:23-79 | any rendering of a map, records in any order and with any base records, each digit in either case, blank lines anywhere, is parsed as that map |
| `HexParser.RefusedIffClash` | host/ihex.py:55-61 | such a rendering is refused, with a conflict, if and only if two of its records give one address different bytes |
| `HexParser.TextExists` | host/ihex.py:23-79 | every list of records that can be rendered has such a text |
| `HexImage.Coalesce` | host/ihex.py:82-101 | the segments are ascending, disjoint, maximal and exactly the map |
| `HexImage.ImageForRange` | host/ihex.py:104-116 | refused if and only if a segment leaves the range; otherwise each position holds its segment's byte or the fill |
| `HexImage.LoadImage` | host/ihex.py:82-116 | succeeds if and only if the text is accepted and every mapped address lies in the range; then the image holds the map's byte at each mapped address and the fill elsewhere |
| `Firmware.GuardExact` | firmware/src/main.c:97-101 | the wrapping length comparison passes if and only if exactly the announced bytes follow |
| `Firmware.Service.Handle` | firmware/src/main.c:60-142 | the entry and each memory and flash command does and answers what its layer states, on an error no more than a beginning of it, with malformed requests refused before anything happens; a fitting command on healthy hardware, and an entry on hardware that will be, gets OK |
| `Firmware.Service.Serve` | firmware/src/main.c:224-238 | input that does not parse gets no answer and changes nothing but the input; otherwise one request is taken from the line, handled, and answered with its own command, sequence number and status, without payload on error; the error text is replaced exactly after a failure, by the wording for that status |
| `Visits.WriteVisits` | firmware/src/stm8_dm.c:38-52 | a chunked write visits each of its bytes once, in address order, in transactions of 1 to 64 bytes |
| `Visits.ReadVisits` | firmware/src/stm8_dm.c:22-36 | and so does a chunked read |
| `HostLink.FrameArrives` | host/protocol.py:97-102 | an encoded command is parsed by the firmware as the command it is |
| `HostLink.MemoryFields` | host/protocol.py:288-310 | the firmware reads back the address, count and data the host packed |
| `HostLink.Probe.Transact` | host/protocol.py:153-184 | a command over a lossless line has the effect and answer of the firmware's handling, with the sequence number advancing modulo 2^16 |
| `HostLink.StatusNamed` | host/protocol.py:43-54 | the status that the host reads from an answer has, in the host's own table, the name of the one that the firmware gave |
| `HostLink.ResponseBurstUnread` | host/protocol.py:174-184 | a response hit by a burst of at most 32 wire bits that leaves the two bytes of its length alone is an exception, whatever follows it |
| `HostLink.Probe.Command` | host/protocol.py:153-172 | an oversized payload reaches nothing; otherwise the answer, or an exception exactly if the status is not OK, with the wording the firmware kept for it; exactly this command is put on the line, and after an error the lookup, which does not touch the target; the sequence number advances by one modulo 2^16, also for an oversized payload, and by two if an error was looked up |
| `HostLink.Probe.EnterSwim` | host/protocol.py:200-201 | one entry command is sent; at most the two debug registers of a conforming target change; success means it is stalled; hardware on which nothing will go wrong is entered and healthy |
| `HostLink.Probe.ReadMemory` | host/protocol.py:288-296 | no command that changes the target is sent; on success the bytes are the device's, and every byte was visited exactly once in address order through all three levels of chunking; up to 1024 bytes take one command |
| `HostLink.Probe.WriteMemory` | host/protocol.py:298-304 | on success every byte was visited exactly once in address order; whatever happens the target holds a prefix of the data; data that fit one command are sent in one |
| `HostLink.Probe.FlashErase` | host/protocol.py:306-307 | one erase command is sent; success means what the driver's erase states, for the same range |
| `HostLink.Probe.FlashWriteBlock` | host/protocol.py:309-310 | one block command is sent; success means what the driver's block write states, for the same bytes |
| `Programmer.UnlockProgramFlash` | host/rp2040_swim.py:173-179 | the commands sent are the keys in order, or a beginning of them on failure; success leaves the memory as it was; on healthy hardware whose flash is unlocked or can be, it is unlocked |
| `Programmer.WriteBlocks` | host/rp2040_swim.py:414-418 | the commands sent are the blocks of the image from left to right without the blank ones, or a beginning of them on failure; success means the flash holds the image, blank blocks being in place already |
| `Programmer.FlashImage` | host/rp2040_swim.py:412-422 | the commands sent are the keys if the flash is locked, the erase of the flash and the blocks of the image, or a beginning of them on failure; success means the flash is the image and no other memory has changed, under the assumption of the driver; with verify, that success alone says the flash is the image; healthy hardware gets success |
| `Programmer.CmdFlash` | host/rp2040_swim.py:404-422 | a file that is not accepted or does not fit is refused before anything is sent: target, log and sequence number are as they were; otherwise the commands sent are the entry, the keys if the flash is locked, the erase and the blocks of the picture of the file, or a beginning of them on failure; success on a conforming target under the assumption of the driver: the flash is the map of the file over zeros and no other memory has changed but the two debug registers; with verify, success alone says the flash is the image; on hardware on which nothing goes wrong it succeeds, from the entry on, if and only if the file is accepted and fits |

## Left out

- High-speed SWIM: the multi-bit receive paths reject it, and the write path still encodes low-speed bits.
- Width bursts, partial bursts, `read_frame_bits`, `wait_response` and the legacy sync waits: not used by the link; they repeat the single capture.
- Pull-ups, rise times, the input synchroniser, fractional clock dividers, DMA channel setup, interrupt masking, polling against the wall clock and the bit-bang entry fallback: hardware or the Pico SDK; a wait either ends or times out.
- The wording of diagnostics: of a message only whether it is non-empty, and the text for a status and a message is any function of the two, cut to 95 bytes when it is kept.
- The commands GET_VERSION, SET_PINS, SET_SPEED, RESET_TARGET, RELEASE_TARGET, DEBUG_WAVEFORM, ENTRY_WAVEFORM and GET_SWIM_DEBUG as frames, the read-out protection commands, the command line and the serial port: thin or constant data. `Programmer.CmdFlash` ends before the optional reset of the target.
- `host/swim_timing.py`: `sync_low_to_tswim_ns` divides as `Timing.TswimOf` does; `classify_low_pulse_clocks` and `classify_low_pulse_counts` judge whole clocks, the latter dividing sample counts by the sync count without the rounding to whole nanoseconds that the firmware has, and are not modelled.
- Python's `int(text, 16)` beyond hexadecimal digits (signs, underscores, blanks), and line splitting: a text is a list of lines; `strip` removes blanks and tabs.
- The NULL data pointer of `write_block`.
- Link.SwimLink.Write: a host frame whose damage passes the target's parity check is not modelled; the target refuses a damaged frame.
- Link.SwimLink.Read: a reply frame with an even number of inverted bits is not modelled; one parity bit cannot see it.
- Flash.Driver.WriteOptionByte: the target restarting by itself after an option byte changes is not modelled.
