/**
The part of an RP2040 PIO state machine that the three SWIM programs use, as an
interpreter that executes one instruction per state-machine clock, and the three
programs themselves.

A state machine sees three things it shares with its neighbours: the level of the
SWIM line at the start of the clock, the flag IRQ0, and its two FIFOs.
*/
module Pio {
  import opened BitVectors

  // A joined TX FIFO holds eight words; a separate RX FIFO holds four.
  const TX_DEPTH := 8
  const RX_DEPTH := 4

  datatype Instr =
    | PullBlock
    | PushBlock
    | Out1ToY
    | Out31ToX
    | InNull1
    | InX1
    | MovYOsr
    | MovXOsr
    | MovIsrX
    | MovIsrNull
    | SetX1
    | SetPindirs(low: bool)
    | IrqSet0
    | WaitIrq0
    | WaitPin(level: bool)
    | Jmp(target: nat)
    | JmpNotX(target: nat)
    | JmpNotY(target: nat)
    | JmpXDec(target: nat)
    | JmpYDec(target: nat)
    | JmpPin(target: nat)

  /** `low` is the pin direction: true drives the open-drain line low, false releases it. */
  datatype Sm = Sm(pc: nat, x: Word, y: Word, osr: Word, isr: Word, low: bool,
                   tx: seq<Word>, rx: seq<Word>)

  datatype Outcome = Outcome(sm: Sm, irq: bool)

  function Decrement(w: Word): Word {
    if w == 0 then 0xFFFF_FFFF else w - 1
  }

  /** ISR shifted left by one bit, the direction the receivers are configured for. */
  function ShiftIn(isr: Word, bit: Word): Word {
    (isr * 2 + bit % 2) % 0x1_0000_0000
  }

  /** The address after `pc`; the last instruction wraps to the first. */
  function Next(size: nat, pc: nat): nat {
    if pc + 1 < size then pc + 1 else 0
  }

  /** One clock. A stalled instruction leaves the machine as it is. */
  function Execute(i: Instr, next: nat, s: Sm, pin: bool, irq: bool): Outcome {
    match i
    case PullBlock =>
      if s.tx == [] then Outcome(s, irq)
      else Outcome(s.(pc := next, osr := s.tx[0], tx := s.tx[1..]), irq)
    case PushBlock =>
      if |s.rx| >= RX_DEPTH then Outcome(s, irq)
      else Outcome(s.(pc := next, isr := 0, rx := s.rx + [s.isr]), irq)
    case Out1ToY => Outcome(s.(pc := next, y := s.osr % 2, osr := s.osr / 2), irq)
    case Out31ToX =>
      Outcome(s.(pc := next, x := s.osr % 0x8000_0000, osr := s.osr / 0x8000_0000), irq)
    case InNull1 => Outcome(s.(pc := next, isr := ShiftIn(s.isr, 0)), irq)
    case InX1 => Outcome(s.(pc := next, isr := ShiftIn(s.isr, s.x)), irq)
    case MovYOsr => Outcome(s.(pc := next, y := s.osr), irq)
    case MovXOsr => Outcome(s.(pc := next, x := s.osr), irq)
    case MovIsrX => Outcome(s.(pc := next, isr := s.x), irq)
    case MovIsrNull => Outcome(s.(pc := next, isr := 0), irq)
    case SetX1 => Outcome(s.(pc := next, x := 1), irq)
    case SetPindirs(low) => Outcome(s.(pc := next, low := low), irq)
    case IrqSet0 => Outcome(s.(pc := next), true)
    case WaitIrq0 => if irq then Outcome(s.(pc := next), false) else Outcome(s, irq)
    case WaitPin(level) => if pin == level then Outcome(s.(pc := next), irq) else Outcome(s, irq)
    case Jmp(t) => Outcome(s.(pc := t), irq)
    case JmpNotX(t) => Outcome(s.(pc := if s.x == 0 then t else next), irq)
    case JmpNotY(t) => Outcome(s.(pc := if s.y == 0 then t else next), irq)
    case JmpXDec(t) => Outcome(s.(pc := if s.x != 0 then t else next, x := Decrement(s.x)), irq)
    case JmpYDec(t) => Outcome(s.(pc := if s.y != 0 then t else next, y := Decrement(s.y)), irq)
    case JmpPin(t) => Outcome(s.(pc := if pin then t else next), irq)
  }

  /** A state machine, clock by clock. */
  class StateMachine {
    var pc: nat
    var x: Word
    var y: Word
    var osr: Word
    var isr: Word
    var low: bool
    var tx: seq<Word>
    var rx: seq<Word>

    /** As the drivers start one: at the program's first instruction, FIFOs as given. */
    constructor (tx: seq<Word>)
      ensures Now() == Sm(0, 0, 0, 0, 0, false, tx, [])
    {
      pc, x, y, osr, isr, low := 0, 0, 0, 0, 0, false;
      this.tx, rx := tx, [];
    }

    ghost function Now(): Sm
      reads this
    {
      Sm(pc, x, y, osr, isr, low, tx, rx)
    }

    method Branch(taken: bool, target: nat, next: nat)
      modifies `pc
      ensures pc == if taken then target else next
    {
      pc := if taken then target else next;
    }

    /** The instruction at `pc`; `next` is the address after it. The result is the flag. */
    method Clock(i: Instr, next: nat, pin: bool, irq: bool) returns (flag: bool)
      modifies this
      ensures Outcome(Now(), flag) == Execute(i, next, old(Now()), pin, irq)
    {
      flag := irq;
      match i {
        case PullBlock =>
          if tx == [] { return; }
          osr, tx := tx[0], tx[1..];
        case PushBlock =>
          if |rx| >= RX_DEPTH { return; }
          rx, isr := rx + [isr], 0;
        case Out1ToY => y, osr := osr % 2, osr / 2;
        case Out31ToX => x, osr := osr % 0x8000_0000, osr / 0x8000_0000;
        case InNull1 => isr := ShiftIn(isr, 0);
        case InX1 => isr := ShiftIn(isr, x);
        case MovYOsr => y := osr;
        case MovXOsr => x := osr;
        case MovIsrX => isr := x;
        case MovIsrNull => isr := 0;
        case SetX1 => x := 1;
        case SetPindirs(drive) => low := drive;
        case IrqSet0 => flag := true;
        case WaitIrq0 =>
          if !irq { return; }
          flag := false;
        case WaitPin(level) =>
          if pin != level { return; }
        case Jmp(t) => Branch(true, t, next); return;
        case JmpNotX(t) => Branch(x == 0, t, next); return;
        case JmpNotY(t) => Branch(y == 0, t, next); return;
        case JmpXDec(t) => Branch(x != 0, t, next); x := Decrement(x); return;
        case JmpYDec(t) => Branch(y != 0, t, next); y := Decrement(y); return;
        case JmpPin(t) => Branch(pin, t, next); return;
      }
      pc := next;
    }
  }

  /** swim_waveform.pio, by address. */
  const WAVEFORM_SIZE := 14

  function WaveformAt(pc: nat): Instr
    requires pc < WAVEFORM_SIZE
  {
    match pc
    case 0 => PullBlock              // start
    case 1 => Out1ToY
    case 2 => Out31ToX
    case 3 => JmpNotX(11)
    case 4 => JmpNotY(8)
    case 5 => SetPindirs(true)       // drive_low
    case 6 => JmpXDec(6)             // low_loop
    case 7 => Jmp(0)
    case 8 => SetPindirs(false)      // release
    case 9 => JmpXDec(9)             // release_loop
    case 10 => Jmp(0)
    case 11 => SetPindirs(false)     // done
    case 12 => IrqSet0
    case 13 => PullBlock
  }

  /** swim_rx_decode.pio, by address. */
  const RX_DECODE_SIZE := 17

  function RxDecodeAt(pc: nat): Instr
    requires pc < RX_DECODE_SIZE
  {
    match pc
    case 0 => PullBlock              // start
    case 1 => MovYOsr
    case 2 => PullBlock
    case 3 => WaitIrq0
    case 4 => MovIsrNull
    case 5 => MovXOsr                // bit_start
    case 6 => WaitPin(false)
    case 7 => JmpPin(12)             // low_loop
    case 8 => JmpXDec(7)
    case 9 => WaitPin(true)          // bit_zero
    case 10 => InNull1
    case 11 => Jmp(15)
    case 12 => SetX1                 // bit_one
    case 13 => WaitPin(true)
    case 14 => InX1
    case 15 => JmpYDec(5)            // bit_done
    case 16 => PushBlock
  }

  /** swim_rx_width.pio, by address. */
  const RX_WIDTH_SIZE := 11

  function RxWidthAt(pc: nat): Instr
    requires pc < RX_WIDTH_SIZE
  {
    match pc
    case 0 => PullBlock              // start
    case 1 => MovYOsr
    case 2 => PullBlock
    case 3 => WaitIrq0
    case 4 => MovXOsr                // next_width
    case 5 => WaitPin(false)
    case 6 => JmpPin(8)              // width_loop
    case 7 => JmpXDec(6)
    case 8 => MovIsrX                // width_done
    case 9 => PushBlock
    case 10 => JmpYDec(4)
  }
}
