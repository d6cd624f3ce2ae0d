/**
Both state machines at once: the TX engine at `d` system clocks a tick, the armed
receiver at one, with either of its programs, the shared flag IRQ0, and a wired-AND line
that the target may pull low at any moment. In every clock the receiver samples the line
and the flag as they are when the clock starts.
*/
module Joint {
  import opened BitVectors
  import opened Pio
  import opened Watching
  import opened Waveform
  import opened TxEngine
  import opened RxDriver
  import RxDecode
  import RxWidth
  import T = Timing

  datatype Sys = Sys(tx: TxRun, rx: Sm, irq: bool, clocks: nat)

  /** What the outside does in one clock: words the DMA channel has, and the target. */
  datatype Input = Input(words: nat, targetLow: bool)

  function LineAt(s: Sys, i: Input): bool {
    !s.tx.sm.low && !i.targetLow
  }

  /** One clock of the receive program that is loaded. */
  function RxClock(mode: Mode): (Outcome, bool) -> Outcome {
    match mode
    case WidthProgram => RxWidth.Clock
    case DecodeProgram => RxDecode.Clock
  }

  function Clock(mode: Mode, d: nat, s: Sys, i: Input): Sys
    requires d >= 1 && |s.tx.sm.tx| <= TX_DEPTH
  {
    var rx := RxClock(mode)(Outcome(s.rx, s.irq), LineAt(s, i));
    var tx := if s.clocks % d == 0 then Tick(s.tx, i.words) else s.tx;
    Sys(tx, rx.sm, rx.irq || tx.irqs > s.tx.irqs, s.clocks + 1)
  }

  function Run(mode: Mode, d: nat, s: Sys, ins: seq<Input>): (r: Sys)
    requires d >= 1 && |s.tx.sm.tx| <= TX_DEPTH
    ensures |r.tx.sm.tx| <= TX_DEPTH
    decreases |ins|
  {
    if ins == [] then s else Run(mode, d, Clock(mode, d, s, ins[0]), ins[1..])
  }

  /** Arm RX with its two parameters, then start TX, as the capture functions of
      swim_pio_waveform.c do. */
  ghost predicate Armed(segs: seq<Segment>, first: Word, second: Word, s: Sys) {
    && Loadable(segs)
    && (exists x, y, osr :: s.tx == Start(Words(segs), x, y, osr))
    && s.rx.pc == 0 && s.rx.tx == [first, second] && s.rx.rx == [] && !s.irq && s.clocks == 0
  }

  // ----- what every clock keeps -----

  /** At `wait 1 irq 0` with both parameters loaded: both programs begin alike. */
  predicate Parked(rx: Sm, first: Word, second: Word) {
    rx.pc == 3 && rx.y == first && rx.osr == second && rx.tx == [] && rx.rx == []
  }

  /** Before the flag: loading the two parameters, then parked. */
  predicate Early(rx: Sm, first: Word, second: Word, clocks: nat) {
    && rx.rx == []
    && match rx.pc
       case 0 => clocks == 0 && rx.tx == [first, second]
       case 1 => clocks == 1 && rx.tx == [second] && rx.osr == first
       case 2 => clocks == 2 && rx.tx == [second] && rx.y == first
       case 3 => clocks >= 3 && Parked(rx, first, second)
       case _ => false
  }

  ghost predicate Keeps(segs: seq<Segment>, first: Word, second: Word, s: Sys)
    requires Loadable(segs)
  {
    && Inv(segs, s.tx)
    && |s.tx.wire| <= s.clocks
    && IsWire(s.tx.wire, s.tx.closed, s.tx.open)
    && (s.tx.irqs == 0 ==> !s.irq && Early(s.rx, first, second, s.clocks))
    && (s.tx.irqs == 1 ==> !s.tx.sm.low && (s.irq ==> Parked(s.rx, first, second)))
  }

  lemma EarlyKeeps(mode: Mode, rx: Sm, first: Word, second: Word, clocks: nat, pin: bool)
    requires Early(rx, first, second, clocks)
    ensures var o := RxClock(mode)(Outcome(rx, false), pin);
            !o.irq && Early(o.sm, first, second, clocks + 1)
  {
  }

  /** The receiver consumes the flag in the clock after it sees it. */
  lemma FlagConsumed(mode: Mode, rx: Sm, irq: bool, pin: bool, first: Word, second: Word)
    requires irq ==> Parked(rx, first, second)
    ensures !RxClock(mode)(Outcome(rx, irq), pin).irq
  {
  }

  /** The raising tick comes after at least six ticks, and only releases the line. */
  lemma TxKeeps(segs: seq<Segment>, tx: TxRun, n: nat)
    requires Loadable(segs) && Inv(segs, tx)
    requires IsWire(tx.wire, tx.closed, tx.open)
    ensures var t := Tick(tx, n);
            && Inv(segs, t) && |t.wire| == |tx.wire| + 1
            && IsWire(t.wire, t.closed, t.open)
            && tx.irqs <= t.irqs <= 1
            && (t.irqs == 1 ==> !t.sm.low && |t.wire| >= 6)
  {
    TickKeeps(segs, tx, n);
    TickWire(segs, tx, n);
    InvTransmits(segs, tx);
    InvTransmits(segs, Tick(tx, n));
    IrqsGrow(tx, n);
    RaisedLate(segs, Tick(tx, n));
  }

  lemma IrqsGrow(tx: TxRun, n: nat)
    requires |tx.sm.tx| <= TX_DEPTH
    ensures tx.irqs <= Tick(tx, n).irqs
  {
  }

  lemma RaisedLate(segs: seq<Segment>, t: TxRun)
    requires Loadable(segs) && Transmitted(segs, t)
    ensures t.irqs == 1 ==> |t.wire| >= 6
  {
  }

  /** What the TX side has done in a clock: nothing, or a tick. */
  ghost predicate TxGoesOn(segs: seq<Segment>, tx: TxRun, t: TxRun)
    requires Loadable(segs)
  {
    && Inv(segs, t) && |t.wire| <= |tx.wire| + 1
    && IsWire(t.wire, t.closed, t.open)
    && tx.irqs <= t.irqs <= 1
    && (t.irqs == 1 ==> !t.sm.low)
    && (tx.irqs < t.irqs ==> |t.wire| >= 6)
  }

  /** Before the flag the receiver stays where it hears nothing; six clocks in, it is parked. */
  lemma BeforeFlag(mode: Mode, segs: seq<Segment>, first: Word, second: Word, s: Sys, t: TxRun, pin: bool)
    requires Loadable(segs) && Keeps(segs, first, second, s) && s.tx.irqs == 0 && TxGoesOn(segs, s.tx, t)
    ensures var o := RxClock(mode)(Outcome(s.rx, s.irq), pin);
            Keeps(segs, first, second, Sys(t, o.sm, o.irq || t.irqs > s.tx.irqs, s.clocks + 1))
  {
    EarlyKeeps(mode, s.rx, first, second, s.clocks, pin);
  }

  lemma AfterFlag(mode: Mode, segs: seq<Segment>, first: Word, second: Word, s: Sys, t: TxRun, pin: bool)
    requires Loadable(segs) && Keeps(segs, first, second, s) && s.tx.irqs == 1 && TxGoesOn(segs, s.tx, t)
    ensures var o := RxClock(mode)(Outcome(s.rx, s.irq), pin);
            Keeps(segs, first, second, Sys(t, o.sm, o.irq || t.irqs > s.tx.irqs, s.clocks + 1))
  {
    FlagConsumed(mode, s.rx, s.irq, pin, first, second);
  }

  lemma {:induction false} ClockKeeps(mode: Mode, d: nat, segs: seq<Segment>, first: Word, second: Word, s: Sys, i: Input)
    requires d >= 1 && Loadable(segs) && Keeps(segs, first, second, s)
    ensures Keeps(segs, first, second, Clock(mode, d, s, i))
    ensures s.tx.irqs <= Clock(mode, d, s, i).tx.irqs <= 1
    ensures s.tx.irqs < Clock(mode, d, s, i).tx.irqs ==> Clock(mode, d, s, i).irq
  {
    var t := if s.clocks % d == 0 then Tick(s.tx, i.words) else s.tx;
    InvTransmits(segs, s.tx);
    TxKeeps(segs, s.tx, i.words);
    if s.tx.irqs == 0 {
      BeforeFlag(mode, segs, first, second, s, t, LineAt(s, i));
    } else {
      AfterFlag(mode, segs, first, second, s, t, LineAt(s, i));
    }
  }

  lemma ArmedKeeps(segs: seq<Segment>, first: Word, second: Word, s: Sys)
    requires Armed(segs, first, second, s)
    ensures Keeps(segs, first, second, s)
  {
    assert Words(segs)[0..] == Words(segs);
  }

  lemma {:induction false} RunKeeps(mode: Mode, d: nat, segs: seq<Segment>, first: Word, second: Word, s: Sys, ins: seq<Input>)
    requires d >= 1 && Loadable(segs) && Keeps(segs, first, second, s)
    ensures Keeps(segs, first, second, Run(mode, d, s, ins)) && Run(mode, d, s, ins).tx.irqs <= 1
    decreases |ins|
  {
    if ins != [] {
      ClockKeeps(mode, d, segs, first, second, s, ins[0]);
      RunKeeps(mode, d, segs, first, second, Clock(mode, d, s, ins[0]), ins[1..]);
    } else {
      InvTransmits(segs, s.tx);
    }
  }

  // ----- the main results -----

  /** Past `wait 1 irq 0`: the only states in which the receiver looks at the line. */
  predicate Listening(rx: Sm) {
    rx.pc > 3 || rx.rx != []
  }

  /** However the DMA channel, the divider and the target behave, once armed the receiver
      does not look at the line until the host has released it for good: it never times
      one of the host's own lows. */
  lemma {:induction false} NeverHearsHost(mode: Mode, d: nat, segs: seq<Segment>, first: Word, second: Word, s: Sys,
      ins: seq<Input>)
    requires d >= 1 && Armed(segs, first, second, s)
    ensures var r := Run(mode, d, s, ins);
            && (Listening(r.rx) ==> r.tx.irqs == 1)
            && (r.tx.irqs == 1 ==> !r.tx.sm.low)
            && (r.tx.irqs == 0 ==> r.rx.rx == [])
  {
    ArmedKeeps(segs, first, second, s);
    RunKeeps(mode, d, segs, first, second, s, ins);
  }

  /** The line as the target alone leaves it. */
  function TargetLine(ins: seq<Input>): (l: seq<bool>)
    ensures |l| == |ins|
  {
    seq(|ins|, k requires 0 <= k < |ins| => !ins[k].targetLow)
  }

  /** After the release the receiver sees the target and nothing else. */
  lemma {:induction false} SeesTarget(mode: Mode, d: nat, segs: seq<Segment>, first: Word, second: Word, s: Sys, ins: seq<Input>)
    requires d >= 1 && Loadable(segs) && Keeps(segs, first, second, s) && s.tx.irqs == 1
    ensures var r := Run(mode, d, s, ins);
            Outcome(r.rx, r.irq) == Watch(RxClock(mode), Outcome(s.rx, s.irq), TargetLine(ins))
    decreases |ins|
  {
    if ins != [] {
      ClockKeeps(mode, d, segs, first, second, s, ins[0]);
      var t := Clock(mode, d, s, ins[0]);
      assert t.tx.irqs == 1;
      assert Outcome(t.rx, t.irq) == RxClock(mode)(Outcome(s.rx, s.irq), !ins[0].targetLow);
      SeesTarget(mode, d, segs, first, second, t, ins[1..]);
      assert TargetLine(ins)[1..] == TargetLine(ins[1..]);
    }
  }

  lemma {:induction false} RunAppend(mode: Mode, d: nat, s: Sys, a: seq<Input>, b: seq<Input>)
    requires d >= 1 && |s.tx.sm.tx| <= TX_DEPTH
    ensures Run(mode, d, s, a + b) == Run(mode, d, Run(mode, d, s, a), b)
    decreases |a|
  {
    if a == [] {
      assert a + b == b;
    } else {
      assert (a + b)[1..] == a[1..] + b;
      RunAppend(mode, d, Clock(mode, d, s, a[0]), a[1..], b);
    }
  }

  /** From the clock that raises IRQ0 on, the receiver, found parked, watches the target. */
  lemma WatchesAnswer(mode: Mode, d: nat, segs: seq<Segment>, first: Word, second: Word, s: Sys,
      talk: seq<Input>, raise: Input, answer: seq<Input>) returns (rx: Sm)
    requires d >= 1 && Armed(segs, first, second, s)
    requires Run(mode, d, s, talk).tx.irqs == 0 && Run(mode, d, s, talk + [raise]).tx.irqs == 1
    ensures Parked(rx, first, second)
    ensures Run(mode, d, s, talk + [raise] + answer).rx
         == Watch(RxClock(mode), Outcome(rx, true), TargetLine(answer)).sm
  {
    var q := Run(mode, d, s, talk);
    ArmedKeeps(segs, first, second, s);
    RunKeeps(mode, d, segs, first, second, s, talk);
    ClockKeeps(mode, d, segs, first, second, q, raise);
    RunAppend(mode, d, s, talk, [raise]);
    RunOne(mode, d, q, raise);
    var r := Clock(mode, d, q, raise);
    RunAppend(mode, d, s, talk + [raise], answer);
    SeesTarget(mode, d, segs, first, second, r, answer);
    rx := r.rx;
  }

  /** The whole exchange of a multi-bit answer. If the target stays quiet for three clocks
      after the release and answers with pulses that can be told apart, the decoder pushes
      exactly one word, and it is the target's. */
  lemma {:induction false} ReplyDecoded(d: nat, segs: seq<Segment>, count: nat, threshold: Word, s: Sys,
      talk: seq<Input>, raise: Input, answer: seq<Input>, idle: nat, pulses: seq<Pulse>)
    requires d >= 1 && 1 <= count <= 31 && Armed(segs, count - 1, threshold, s)
    requires Run(DecodeProgram, d, s, talk).tx.irqs == 0 && Run(DecodeProgram, d, s, talk + [raise]).tx.irqs == 1
    requires idle >= 3 && |pulses| == count && RxDecode.Separated(pulses, threshold)
    requires TargetLine(answer) == Watching.Line(true, idle) + Trace(pulses)
    ensures Run(DecodeProgram, d, s, talk + [raise] + answer).rx.rx == [RxDecode.Pack(RxDecode.Bits(pulses, threshold))]
  {
    var rx := WatchesAnswer(DecodeProgram, d, segs, count - 1, threshold, s, talk, raise, answer);
    RxDecode.DecodesWord(rx, threshold, idle, pulses);
  }

  /** And of an ACK or a synchronisation pulse, for every line the target makes: two clocks
      after the release the receiver waits for a low, and what it pushes is the budget less
      the low samples from there to the first high one. */
  lemma LineMeasured(d: nat, segs: seq<Segment>, budget: Word, s: Sys,
      talk: seq<Input>, raise: Input, answer: seq<Input>, a: bool, b: bool, idle: nat, line: seq<bool>, k: nat)
    requires d >= 1 && Armed(segs, 0, budget, s)
    requires Run(WidthProgram, d, s, talk).tx.irqs == 0 && Run(WidthProgram, d, s, talk + [raise]).tx.irqs == 1
    requires TargetLine(answer) == [a, b] + Watching.Line(true, idle) + line
    requires line != [] && !line[0] && RxWidth.Sampled(line, budget, k)
    ensures Run(WidthProgram, d, s, talk + [raise] + answer).rx.rx == [RxWidth.WordOf(budget, k)]
  {
    var rx := WatchesAnswer(WidthProgram, d, segs, 0, budget, s, talk, raise, answer);
    RxWidth.MeasuresLine(rx, budget, a, b, idle, line, k);
  }

  /** In particular one low of any length after two quiet clocks, with a gap that is sampled. */
  lemma PulseMeasured(d: nat, segs: seq<Segment>, budget: Word, s: Sys,
      talk: seq<Input>, raise: Input, answer: seq<Input>, idle: nat, low: nat, rest: seq<bool>)
    requires d >= 1 && Armed(segs, 0, budget, s)
    requires Run(WidthProgram, d, s, talk).tx.irqs == 0 && Run(WidthProgram, d, s, talk + [raise]).tx.irqs == 1
    requires idle >= 2 && low >= 1
    requires Samples(low) <= budget ==> RxWidth.GapSampled(low, rest) && |rest| >= 4 - low % 2
    requires Samples(low) > budget ==> low + |rest| >= 2 * budget + 5
    requires TargetLine(answer) == Watching.Line(true, idle) + (Watching.Line(false, low) + rest)
    ensures Run(WidthProgram, d, s, talk + [raise] + answer).rx.rx == [RxWidth.Remaining(low, budget)]
  {
    var rx := WatchesAnswer(WidthProgram, d, segs, 0, budget, s, talk, raise, answer);
    RxWidth.MeasuresPulse(rx, budget, idle, low, rest);
  }

  lemma RunOne(mode: Mode, d: nat, s: Sys, i: Input)
    requires d >= 1 && |s.tx.sm.tx| <= TX_DEPTH
    ensures Run(mode, d, s, [i]) == Clock(mode, d, s, i)
  {
  }

  // ----- the flag does rise -----

  /** The words on offer in the clocks that are TX ticks, from clock `c` on. */
  function TickWords(d: nat, c: nat, ins: seq<Input>): seq<nat>
    requires d >= 1
  {
    if ins == [] then []
    else
      var n := |ins| - 1;
      TickWords(d, c, ins[..n]) + if (c + n) % d == 0 then [ins[n].words] else []
  }

  /** The TX side has run as if it were alone. */
  ghost predicate TxAlone(d: nat, s: Sys, ins: seq<Input>, r: Sys)
    requires d >= 1 && |s.tx.sm.tx| <= TX_DEPTH
  {
    r.tx == TxEngine.Run(s.tx, TickWords(d, s.clocks, ins)) && r.clocks == s.clocks + |ins|
  }

  lemma {:induction false} RunTx(mode: Mode, d: nat, s: Sys, ins: seq<Input>) returns (r: Sys)
    requires d >= 1 && |s.tx.sm.tx| <= TX_DEPTH
    ensures r == Run(mode, d, s, ins) && TxAlone(d, s, ins, r)
    decreases |ins|
  {
    if ins == [] {
      r := s;
    } else {
      var n := |ins| - 1;
      var q := RunTx(mode, d, s, ins[..n]);
      RunNext(mode, d, s, ins, n);
      r := Clock(mode, d, q, ins[n]);
      TxNext(mode, d, s, ins, n, q, r);
    }
  }

  lemma {:induction false} RunNext(mode: Mode, d: nat, s: Sys, ins: seq<Input>, n: nat)
    requires d >= 1 && |s.tx.sm.tx| <= TX_DEPTH && |ins| == n + 1
    ensures Run(mode, d, s, ins) == Clock(mode, d, Run(mode, d, s, ins[..n]), ins[n])
  {
    assert ins == ins[..n] + [ins[n]];
    RunAppend(mode, d, s, ins[..n], [ins[n]]);
    RunOne(mode, d, Run(mode, d, s, ins[..n]), ins[n]);
  }

  lemma TxNext(mode: Mode, d: nat, s: Sys, ins: seq<Input>, n: nat, q: Sys, r: Sys)
    requires d >= 1 && |s.tx.sm.tx| <= TX_DEPTH && |q.tx.sm.tx| <= TX_DEPTH && |ins| == n + 1
    requires TxAlone(d, s, ins[..n], q) && r == Clock(mode, d, q, ins[n])
    ensures TxAlone(d, s, ins, r)
  {
    RunTick(s.tx, TickWords(d, s.clocks, ins[..n]), ins[n].words);
  }

  lemma RunTick(tx: TxRun, sched: seq<nat>, n: nat)
    requires |tx.sm.tx| <= TX_DEPTH
    ensures TxEngine.Run(tx, sched + [n]) == Tick(TxEngine.Run(tx, sched), n)
    ensures TxEngine.Run(tx, sched + []) == TxEngine.Run(tx, sched)
  {
    assert (sched + [n])[..|sched|] == sched && sched + [] == sched;
  }

  /** Every `d` clocks hold a tick. */
  lemma {:induction false} TickCount(d: nat, ins: seq<Input>)
    requires d >= 1
    ensures |TickWords(d, 0, ins)| * d >= |ins|
  {
    if ins != [] {
      var n := |ins| - 1;
      TickCount(d, ins[..n]);
      NextMultiple(d, |TickWords(d, 0, ins[..n])|, n);
    }
  }

  lemma NextMultiple(d: nat, k: nat, n: nat)
    requires d >= 1 && k * d >= n
    ensures (k + 1) * d >= n + 1
    ensures n % d != 0 ==> k * d >= n + 1
  {
    assert (k + 1) * d == k * d + d;
    if k * d == n {
      Multiple(d, k, n);
    }
  }

  lemma Multiple(d: nat, k: nat, n: nat)
    requires d >= 1 && n == k * d
    ensures n % d == 0
  {
    T.DivLargest(n, d, k);
    T.DivLargest(n, d, k + 1);
    assert d * (k + 1) == k * d + d;
  }

  lemma {:induction false} TickWordsOffered(d: nat, c: nat, ins: seq<Input>)
    requires d >= 1 && forall i :: 0 <= i < |ins| ==> ins[i].words >= 1
    ensures Eager(TickWords(d, c, ins))
  {
    if ins != [] {
      TickWordsOffered(d, c, ins[..|ins| - 1]);
    }
  }

  /** Under an eager channel IRQ0 has been raised once the list's ticks, and six more, have
      passed, at any divider. */
  lemma FlagRises(mode: Mode, d: nat, segs: seq<Segment>, first: Word, second: Word, s: Sys,
      ins: seq<Input>, ticks: nat)
    requires d >= 1 && Armed(segs, first, second, s) && forall i :: 0 <= i < |ins| ==> ins[i].words >= 1
    requires ticks == TotalTicks(segs) + 6 && |ins| >= ticks * d
    ensures Run(mode, d, s, ins).tx.irqs == 1
  {
    var sched := TickWords(d, 0, ins);
    var r := RunTx(mode, d, s, ins);
    TickCount(d, ins);
    AtLeast(d, |sched|, ticks);
    TickWordsOffered(d, 0, ins);
    FlagOf(segs, s.tx, sched);
  }

  lemma FlagOf(segs: seq<Segment>, tx: TxRun, sched: seq<nat>)
    requires Loadable(segs) && (exists x, y, osr :: tx == Start(Words(segs), x, y, osr))
    requires Eager(sched) && |sched| >= TotalTicks(segs) + 6
    ensures TxEngine.Run(tx, sched).irqs == 1
  {
    var x, y, osr :| tx == Start(Words(segs), x, y, osr);
    EagerIsIdeal(segs, x, y, osr, sched);
  }

  lemma AtLeast(d: nat, k: nat, n: nat)
    requires d >= 1 && k * d >= n * d
    ensures k >= n
  {
    if k < n {
      Grows(d, k, n);
    }
  }

  lemma Grows(d: nat, k: nat, n: nat)
    requires d >= 1 && k < n
    ensures k * d < n * d
  {
    T.MulLe(k + 1, n, d);
  }

  /** And there is a clock that raises it. */
  lemma {:induction false} RaisingClock(mode: Mode, d: nat, segs: seq<Segment>, first: Word, second: Word, s: Sys,
      ins: seq<Input>) returns (k: nat)
    requires d >= 1 && Armed(segs, first, second, s) && Run(mode, d, s, ins).tx.irqs == 1
    ensures k < |ins| && Run(mode, d, s, ins[..k]).tx.irqs == 0
    ensures Run(mode, d, s, ins[..k] + [ins[k]]).tx.irqs == 1
    decreases |ins|
  {
    k := |ins| - 1;
    assert ins == ins[..k] + [ins[k]];
    ArmedKeeps(segs, first, second, s);
    RunKeeps(mode, d, segs, first, second, s, ins[..k]);
    if Run(mode, d, s, ins[..k]).tx.irqs == 1 {
      var i := RaisingClock(mode, d, segs, first, second, s, ins[..k]);
      assert ins[..k][..i] == ins[..i];
      k := i;
    }
  }
}

/**
From calibration to the decoded word: what the target says in real time, at its own
period, as the receiver sees and decodes it.
*/
module Answers {
  import opened BitVectors
  import opened Wrappers
  import opened Watching
  import opened Timing
  import opened Calibration
  import opened Waveform
  import opened RxDriver
  import RxDecode
  import F = SwimFrame
  import Joint

  /** The bits as pulses on the line, at period `q`, their edges anywhere within a clock. */
  ghost predicate Said(clk: nat, q: real, bits: seq<bool>, pulses: seq<Pulse>) {
    && |pulses| == |bits|
    && forall i :: 0 <= i < |bits| ==>
         SeenAs(clk, LowTime(bits[i], q), pulses[i].low) && SeenAs(clk, HighTime(bits[i], q), pulses[i].high)
  }

  lemma BitSeen(clk: nat, period: real, syncLow: nat, tswim: nat, threshold: Word, q: real, bit: bool,
      p: Pulse)
    requires Calibrates(clk, period, syncLow, tswim) && period / 2.0 <= q <= 3.85 * period
    requires SeenAs(clk, LowTime(bit, q), p.low) && SeenAs(clk, HighTime(bit, q), p.high)
    requires threshold == Threshold(clk, tswim)
    ensures p.low >= 1 && p.high >= RxDecode.Latency(p.low, threshold) && RxDecode.Bit(p.low, threshold) == bit
  {
    DecoderReads(clk, period, syncLow, tswim, q, bit, p.low);
    BitSpaced(clk, period, syncLow, tswim, q, bit, p.low, p.high);
  }

  /** Whatever the period does between a half and 3.85 times the calibrated one, the
      pulses of any bits can be told apart, and mean those bits. */
  lemma SaidIsRead(clk: nat, period: real, syncLow: nat, tswim: nat, threshold: Word, q: real,
      bits: seq<bool>, pulses: seq<Pulse>)
    requires Calibrates(clk, period, syncLow, tswim) && period / 2.0 <= q <= 3.85 * period
    requires Said(clk, q, bits, pulses) && threshold == Threshold(clk, tswim)
    ensures RxDecode.Separated(pulses, threshold) && RxDecode.Bits(pulses, threshold) == bits
  {
    forall i | 0 <= i < |bits|
      ensures pulses[i].low >= 1 && pulses[i].high >= RxDecode.Latency(pulses[i].low, threshold)
      ensures RxDecode.Bit(pulses[i].low, threshold) == bits[i]
    {
      BitSeen(clk, period, syncLow, tswim, threshold, q, bits[i], pulses[i]);
    }
  }

  /** The whole exchange in real time: calibrated once, armed with the firmware's threshold,
      the host's frame sent at any divider, and the target's bits come out as its word. */
  lemma {:induction false} SaidIsReceived(d: nat, segs: seq<Segment>, clk: nat, period: real, syncLow: nat, tswim: nat,
      threshold: Word, q: real, bits: seq<bool>, s: Joint.Sys, talk: seq<Joint.Input>, raise: Joint.Input,
      answer: seq<Joint.Input>, idle: nat, pulses: seq<Pulse>)
    requires d >= 1 && 1 <= |bits| <= 31 && Joint.Armed(segs, |bits| - 1, threshold, s)
    requires Joint.Run(DecodeProgram, d, s, talk).tx.irqs == 0 && Joint.Run(DecodeProgram, d, s, talk + [raise]).tx.irqs == 1
    requires Calibrates(clk, period, syncLow, tswim) && period / 2.0 <= q <= 3.85 * period
    requires Said(clk, q, bits, pulses) && threshold == Threshold(clk, tswim)
    requires idle >= 3 && Joint.TargetLine(answer) == Line(true, idle) + Trace(pulses)
    ensures Joint.Run(DecodeProgram, d, s, talk + [raise] + answer).rx.rx == [RxDecode.Pack(bits)]
  {
    SaidIsRead(clk, period, syncLow, tswim, threshold, q, bits, pulses);
    BitsArrive(d, segs, threshold, bits, s, talk, raise, answer, idle, pulses);
  }

  lemma {:induction false} BitsArrive(d: nat, segs: seq<Segment>, threshold: Word, bits: seq<bool>, s: Joint.Sys,
      talk: seq<Joint.Input>, raise: Joint.Input, answer: seq<Joint.Input>, idle: nat, pulses: seq<Pulse>)
    requires d >= 1 && 1 <= |bits| <= 31 && Joint.Armed(segs, |bits| - 1, threshold, s)
    requires Joint.Run(DecodeProgram, d, s, talk).tx.irqs == 0 && Joint.Run(DecodeProgram, d, s, talk + [raise]).tx.irqs == 1
    requires RxDecode.Separated(pulses, threshold) && RxDecode.Bits(pulses, threshold) == bits
    requires idle >= 3 && Joint.TargetLine(answer) == Line(true, idle) + Trace(pulses)
    ensures Joint.Run(DecodeProgram, d, s, talk + [raise] + answer).rx.rx == [RxDecode.Pack(bits)]
  {
    Joint.ReplyDecoded(d, segs, |bits|, threshold, s, talk, raise, answer, idle, pulses);
  }

  // ----- from the word to the byte -----

  /** The word's bits, least significant first, are the received ones with the last on the
      left. */
  lemma {:induction false} WordHeard(bits: seq<bool>)
    ensures LowBits(RxDecode.Pack(bits), |bits|) == F.Reverse(bits)
    decreases |bits|
  {
    if bits != [] {
      var n := |bits| - 1;
      WordHeard(bits[..n]);
      LowBitsPush(RxDecode.Pack(bits[..n]), bits[n], n);
      F.ReverseSnoc(bits[..n], bits[n]);
      assert bits == bits[..n] + [bits[n]];
    }
  }

  /** A frame that was said, header or ACK first, is the word whose bits the PHY sees. */
  lemma FrameHeard(first: bool, v: Byte, said: seq<bool>)
    requires said == F.Reverse(F.FrameBits(first, v))
    ensures LowBits(RxDecode.Pack(said), |said|) == F.FrameBits(first, v)
    ensures F.PhyFrame(LowBits(RxDecode.Pack(said), |said|)) == Some(F.DataBits(v))
    ensures F.LinkByte(F.DataBits(v)) == Some(v)
  {
    WordHeard(said);
    F.ReverseTwice(F.FrameBits(first, v));
    F.IntactRead(first, v);
  }

  /** From the target's pulses to the link's byte: a frame said in real time, with or without
      the ACK in front, is pushed as one word, and the PHY and the link read its byte. */
  lemma ByteReceived(d: nat, segs: seq<Segment>, clk: nat, period: real, syncLow: nat, tswim: nat,
      threshold: Word, q: real, first: bool, v: Byte, said: seq<bool>, s: Joint.Sys, talk: seq<Joint.Input>,
      raise: Joint.Input, answer: seq<Joint.Input>, idle: nat, pulses: seq<Pulse>) returns (raw: nat)
    requires said == F.Reverse(F.FrameBits(first, v))
    requires d >= 1 && Joint.Armed(segs, |said| - 1, threshold, s)
    requires Joint.Run(DecodeProgram, d, s, talk).tx.irqs == 0 && Joint.Run(DecodeProgram, d, s, talk + [raise]).tx.irqs == 1
    requires Calibrates(clk, period, syncLow, tswim) && period / 2.0 <= q <= 3.85 * period
    requires Said(clk, q, said, pulses) && threshold == Threshold(clk, tswim)
    requires idle >= 3 && Joint.TargetLine(answer) == Line(true, idle) + Trace(pulses)
    ensures Joint.Run(DecodeProgram, d, s, talk + [raise] + answer).rx.rx == [raw]
    ensures F.PhyFrame(LowBits(raw, |said|)) == Some(F.DataBits(v)) && F.LinkByte(F.DataBits(v)) == Some(v)
  {
    raw := RxDecode.Pack(said);
    SaidIsReceived(d, segs, clk, period, syncLow, tswim, threshold, q, said, s, talk, raise, answer, idle, pulses);
    FrameHeard(first, v, said);
  }
}
