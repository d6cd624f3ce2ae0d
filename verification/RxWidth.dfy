/**
The low-width capture and the C side of both receivers.
*/
module RxWidth {
  import opened BitVectors
  import opened Pio
  import opened Watching

  function Clock(o: Outcome, pin: bool): Outcome {
    if o.sm.pc < RX_WIDTH_SIZE then
      Execute(RxWidthAt(o.sm.pc), Next(RX_WIDTH_SIZE, o.sm.pc), o.sm, pin, o.irq)
    else o
  }

  /** The machine runs the program on a line, from the flag `irq`. */
  method Listen(sm: StateMachine, line: seq<bool>, irq: bool) returns (flag: bool)
    requires sm.pc < RX_WIDTH_SIZE
    modifies sm
    ensures Outcome(sm.Now(), flag) == Watch(Clock, Outcome(old(sm.Now()), irq), line)
  {
    flag := irq;
    for i := 0 to |line|
      invariant sm.pc < RX_WIDTH_SIZE
      invariant Outcome(sm.Now(), flag) == Watch(Clock, Outcome(old(sm.Now()), irq), line[..i])
    {
      ghost var before := Outcome(sm.Now(), flag);
      flag := sm.Clock(RxWidthAt(sm.pc), Next(RX_WIDTH_SIZE, sm.pc), line[i], flag);
      assert line[..i + 1] == line[..i] + [line[i]];
      WatchNext(Clock, Outcome(old(sm.Now()), irq), line[..i], line[i]);
      StaysInside(before, line[i]);
    }
    assert line[..|line|] == line;
  }

  lemma StaysInside(o: Outcome, pin: bool)
    requires o.sm.pc < RX_WIDTH_SIZE
    ensures Clock(o, pin).sm.pc < RX_WIDTH_SIZE
  {
  }

  /** The word pushed for a low of `low` clocks: the unused part of the budget, or the
      wrapped counter when the budget ran out. */
  function Remaining(low: nat, budget: Word): Word {
    if Samples(low) <= budget then budget - Samples(low) else 0xFFFF_FFFF
  }

  /** At `wait 0 pin`, armed for one width. */
  predicate Waiting(s: Sm, budget: Word) {
    s.pc == 5 && s.x == budget && s.osr == budget && s.y == 0 && s.tx == [] && s.rx == []
  }

  /** The word has been pushed; nothing on the line changes it any more. */
  lemma {:induction false} PushedStays(s: Sm, irq: bool, line: seq<bool>)
    requires ((s.pc == 10 && s.y == 0) || s.pc == 0) && s.tx == []
    ensures Watch(Clock, Outcome(s, irq), line).sm.rx == s.rx
    decreases |line|
  {
    if line != [] {
      if s.pc == 10 {
        assert Clock(Outcome(s, irq), line[0]) == Outcome(s.(pc := 0, y := 0xFFFF_FFFF), irq);
        PushedStays(s.(pc := 0, y := 0xFFFF_FFFF), irq, line[1..]);
      } else {
        assert Clock(Outcome(s, irq), line[0]) == Outcome(s, irq);
        PushedStays(s, irq, line[1..]);
      }
    }
  }

  lemma {:induction false} PushStep(s: Sm, irq: bool, line: seq<bool>)
    requires s.pc == 9 && s.y == 0 && s.tx == [] && s.rx == [] && |line| >= 1
    ensures Watch(Clock, Outcome(s, irq), line).sm.rx == [s.isr]
  {
    assert Clock(Outcome(s, irq), line[0]) == Outcome(s.(pc := 10, isr := 0, rx := [s.isr]), irq);
    PushedStays(s.(pc := 10, isr := 0, rx := [s.isr]), irq, line[1..]);
  }

  /** From width_done: X is pushed, whatever the line does. */
  lemma {:induction false} Pushes(s: Sm, irq: bool, line: seq<bool>)
    requires s.pc == 8 && s.y == 0 && s.tx == [] && s.rx == [] && |line| >= 2
    ensures Watch(Clock, Outcome(s, irq), line).sm.rx == [s.x]
  {
    assert Clock(Outcome(s, irq), line[0]) == Outcome(s.(pc := 9, isr := s.x), irq);
    PushStep(s.(pc := 9, isr := s.x), irq, line[1..]);
  }

  /** At the loop head when the line is back high. */
  lemma SampledHigh(s: Sm, irq: bool, line: seq<bool>)
    requires s.pc == 6 && s.y == 0 && s.tx == [] && s.rx == [] && |line| >= 3 && line[0]
    ensures Watch(Clock, Outcome(s, irq), line).sm.rx == [s.x]
  {
    assert Clock(Outcome(s, irq), true) == Outcome(s.(pc := 8), irq);
    Pushes(s.(pc := 8), irq, line[1..]);
  }

  /** The budget is used up. */
  lemma {:induction false} Overrun(s: Sm, irq: bool, line: seq<bool>)
    requires s.pc == 7 && s.x == 0 && s.y == 0 && s.tx == [] && s.rx == [] && |line| >= 3
    ensures Watch(Clock, Outcome(s, irq), line).sm.rx == [0xFFFF_FFFF]
  {
    assert Clock(Outcome(s, irq), line[0]) == Outcome(s.(pc := 8, x := 0xFFFF_FFFF), irq);
    Pushes(s.(pc := 8, x := 0xFFFF_FFFF), irq, line[1..]);
  }

  // ----- any line at all -----

  /** From the falling edge on, the line is looked at in every other clock: at 1, 3, 5, ... */
  predicate LowSample(line: seq<bool>, i: nat) {
    1 + 2 * i < |line| && !line[1 + 2 * i]
  }

  /** `k` low samples, and then a high one; or one low sample more than the budget. The line
      goes on for the two clocks in which the word is pushed. */
  ghost predicate Sampled(line: seq<bool>, budget: nat, k: nat) {
    && (forall i :: 0 <= i < k ==> LowSample(line, i))
    && if k <= budget then |line| >= 4 + 2 * k && line[1 + 2 * k] else k == budget + 1 && |line| >= 2 * budget + 5
  }

  function WordOf(budget: Word, k: nat): Word {
    if k <= budget then budget - k else 0xFFFF_FFFF
  }

  /** Every line, whatever it does between the samples: the word pushed is the budget less the
      low samples before the first high one, or the wrapped counter. */
  lemma {:induction false} CapturesLine(s: Sm, irq: bool, budget: Word, line: seq<bool>, k: nat)
    requires Waiting(s, budget) && line != [] && !line[0] && Sampled(line, budget, k)
    ensures Watch(Clock, Outcome(s, irq), line).sm.rx == [WordOf(budget, k)]
  {
    assert Clock(Outcome(s, irq), line[0]) == Outcome(s.(pc := 6), irq);
    CountsSamples(s.(pc := 6), irq, line, k);
  }

  lemma {:induction false} CountsSamples(s: Sm, irq: bool, line: seq<bool>, k: nat)
    requires s.pc == 6 && s.y == 0 && s.tx == [] && s.rx == [] && line != [] && Sampled(line, s.x, k)
    ensures Watch(Clock, Outcome(s, irq), line[1..]).sm.rx == [WordOf(s.x, k)]
    decreases k
  {
    if k == 0 {
      SampledHigh(s, irq, line[1..]);
    } else {
      assert LowSample(line, 0);
      var o := Outcome(s.(pc := 7), irq);
      assert Clock(Outcome(s, irq), line[1]) == o;
      if s.x == 0 {
        Overrun(s.(pc := 7), irq, line[2..]);
      } else {
        assert Clock(o, line[2]) == Outcome(s.(pc := 6, x := s.x - 1), irq);
        SampledOn(line, s.x, k);
        CountsSamples(s.(pc := 6, x := s.x - 1), irq, line[2..], k - 1);
      }
      assert line[1..][1..] == line[2..] && line[2..][1..] == line[3..];
    }
  }

  lemma SampledOn(line: seq<bool>, budget: nat, k: nat)
    requires Sampled(line, budget, k) && k >= 1 && budget >= 1 && |line| >= 3
    ensures Sampled(line[2..], budget - 1, k - 1)
  {
    forall i | 0 <= i < k - 1
      ensures LowSample(line[2..], i)
    {
      assert LowSample(line, i + 1);
    }
  }

  /** On a line that is long enough there is always such a `k`, so a word is always pushed. */
  lemma {:induction false} AlwaysSampled(line: seq<bool>, budget: nat, from: nat) returns (k: nat)
    requires |line| >= 2 * budget + 5 && from <= budget + 1 && forall i :: 0 <= i < from ==> LowSample(line, i)
    ensures from <= k && Sampled(line, budget, k)
    decreases budget + 1 - from
  {
    if from <= budget && !line[1 + 2 * from] {
      assert LowSample(line, from);
      k := AlwaysSampled(line, budget, from + 1);
    } else {
      k := from;
    }
  }

  // ----- one low -----

  /** The clock in which the first sample after the low is taken is the first after an odd
      low and the second after an even one. */
  predicate GapSampled(low: nat, rest: seq<bool>) {
    if low % 2 == 1 then rest != [] && rest[0] else |rest| >= 2 && rest[1]
  }

  lemma LowsSampled(low: nat, rest: seq<bool>, k: nat)
    requires k <= Samples(low)
    ensures forall i :: 0 <= i < k ==> LowSample(Line(false, low) + rest, i)
  {
  }

  /** A falling edge, a low of `low` clocks and a gap that is sampled: exactly one word is
      pushed, and it is Remaining; a low that outlasts the budget pushes it without ever
      ending. */
  lemma CapturesWidth(s: Sm, irq: bool, budget: Word, low: nat, rest: seq<bool>)
    requires Waiting(s, budget) && low >= 1
    requires Samples(low) <= budget ==> GapSampled(low, rest) && |rest| >= 4 - low % 2
    requires Samples(low) > budget ==> low + |rest| >= 2 * budget + 5
    ensures Watch(Clock, Outcome(s, irq), Line(false, low) + rest).sm.rx == [Remaining(low, budget)]
  {
    var k := if Samples(low) <= budget then Samples(low) else budget + 1;
    LowsSampled(low, rest, k);
    CapturesLine(s, irq, budget, Line(false, low) + rest, k);
  }

  /** And the gap is exactly what it takes: on a line long enough a low within the budget is
      measured if and only if its gap is sampled. */
  lemma MeasuredIff(s: Sm, irq: bool, budget: Word, low: nat, rest: seq<bool>)
    requires Waiting(s, budget) && low >= 1 && Samples(low) <= budget < 0xFFFF_FFFF && low + |rest| >= 2 * budget + 5
    ensures Watch(Clock, Outcome(s, irq), Line(false, low) + rest).sm.rx == [Remaining(low, budget)]
            <==> GapSampled(low, rest)
  {
    var line := Line(false, low) + rest;
    LowsSampled(low, rest, Samples(low));
    var k := AlwaysSampled(line, budget, Samples(low));
    CapturesLine(s, irq, budget, line, k);
    assert k > Samples(low) ==> LowSample(line, Samples(low));
  }

  /** One high clock after an even low is not seen: two lows of two clocks are one width of
      two samples. */
  lemma ShortGapMissed(s: Sm, irq: bool, line: seq<bool>)
    requires Waiting(s, 10) && line == [false, false, true, false, false, true, true, true]
    ensures Watch(Clock, Outcome(s, irq), line).sm.rx == [8] && Remaining(2, 10) == 9
  {
    assert LowSample(line, 0) && LowSample(line, 1);
    CapturesLine(s, irq, 10, line, 2);
  }

  /** Parked at `wait 1 irq 0`, armed for one width. */
  predicate Parked(s: Sm, budget: Word) {
    s.pc == 3 && s.y == 0 && s.osr == budget && s.tx == [] && s.rx == []
  }

  /** Armed for one width, the machine parks in three clocks at any line levels. */
  lemma ArmedParks(s: Sm, a: bool, b: bool, c: bool, budget: Word)
    requires s.pc == 0 && s.tx == [0, budget] && s.rx == []
    ensures var o := Clock(Clock(Clock(Outcome(s, false), a), b), c);
            Parked(o.sm, budget) && !o.irq
  {
    assert Clock(Outcome(s, false), a) == Outcome(s.(pc := 1, osr := 0, tx := [budget]), false);
  }

  /** Woken by IRQ0, the machine takes two clocks, at any line levels, before it waits for the
      line to be low. */
  lemma {:induction false} WakesWaiting(s: Sm, a: bool, b: bool, idle: nat, budget: Word)
    requires Parked(s, budget)
    ensures Watch(Clock, Outcome(s, true), [a, b] + Line(true, idle)) == Outcome(s.(pc := 5, x := budget), false)
  {
    var o := Outcome(s.(pc := 5, x := budget), false);
    assert Clock(Outcome(s, true), a) == Outcome(s.(pc := 4), false);
    assert Clock(Outcome(s.(pc := 4), false), b) == o;
    WatchTwo(Clock, Outcome(s, true), a, b, Line(true, idle));
    Waits(o, idle);
  }

  lemma {:induction false} Waits(o: Outcome, n: nat)
    requires o.sm.pc == 5
    ensures Watch(Clock, o, Line(true, n)) == o
    decreases n
  {
    if n > 0 {
      assert Clock(o, true) == o && Line(true, n)[1..] == Line(true, n - 1);
      Waits(o, n - 1);
    }
  }

  /** The same from the wake-up on, for every line after the release. */
  lemma MeasuresLine(s: Sm, budget: Word, a: bool, b: bool, idle: nat, line: seq<bool>, k: nat)
    requires Parked(s, budget) && line != [] && !line[0] && Sampled(line, budget, k)
    ensures Watch(Clock, Outcome(s, true), [a, b] + Line(true, idle) + line).sm.rx == [WordOf(budget, k)]
  {
    WatchAppend(Clock, Outcome(s, true), [a, b] + Line(true, idle), line);
    WakesWaiting(s, a, b, idle, budget);
    CapturesLine(s.(pc := 5, x := budget), false, budget, line, k);
  }

  /** Woken with the line high for `idle` >= 2 clocks, then one low of any length. */
  lemma MeasuresPulse(s: Sm, budget: Word, idle: nat, low: nat, rest: seq<bool>)
    requires Parked(s, budget) && idle >= 2 && low >= 1
    requires Samples(low) <= budget ==> GapSampled(low, rest) && |rest| >= 4 - low % 2
    requires Samples(low) > budget ==> low + |rest| >= 2 * budget + 5
    ensures Watch(Clock, Outcome(s, true), Line(true, idle) + (Line(false, low) + rest)).sm.rx
         == [Remaining(low, budget)]
  {
    assert Line(true, idle) == [true, true] + Line(true, idle - 2);
    WatchAppend(Clock, Outcome(s, true), Line(true, idle), Line(false, low) + rest);
    WakesWaiting(s, true, true, idle - 2, budget);
    CapturesWidth(s.(pc := 5, x := budget), false, budget, low, rest);
  }
}

/**
The C driver of the receivers: which program is loaded, how a capture is armed and how
the pushed word is read back.
*/
module RxDriver {
  import opened BitVectors
  import opened Pio
  import opened Timing
  import Calibration
  import RxWidth
  import RxDecode

  datatype Status = Ok | BadArgument | Internal | SwimTimeout

  datatype Mode = WidthProgram | DecodeProgram

  /** Instruction memory of a PIO block (RP2040 datasheet, section 3.2). */
  const PIO_MEMORY := 32

  function SizeOf(mode: Mode): nat {
    match mode
    case WidthProgram => RX_WIDTH_SIZE
    case DecodeProgram => RX_DECODE_SIZE
  }

  datatype Width = Width(loopsUsed: nat, lowNs: nat, lowUs: nat, timeout: bool)

  /** loops_used from the captured word. */
  function UsedLoops(budget: Word, remaining: Word): nat {
    if budget >= remaining then budget - remaining else 0
  }

  /** The reported loops are the low samples when they fit the budget and zero when they
      do not: an overlong low is never reported as a short one. */
  lemma UsedLoopsExact(budget: Word, low: nat)
    requires budget <= MAX_LOOPS
    ensures UsedLoops(budget, RxWidth.Remaining(low, budget)) == Calibration.LoopsUsed(low, budget)
    ensures low / 2 <= budget ==> 2 * UsedLoops(budget, RxWidth.Remaining(low, budget)) in {low, low - 1}
    ensures low / 2 > budget ==> UsedLoops(budget, RxWidth.Remaining(low, budget)) == 0
  {
  }

  /** A low of one clock, which the decoder calls a one at any threshold, has no sample in a
      width capture: it is reported as no loops, and cannot be read. */
  lemma OneClockUnread(clk: nat, tswim: nat, budget: Word)
    requires 100_000_000 <= clk <= 4_000_000_000 && 55 <= tswim <= 2344 && budget <= MAX_LOOPS
    ensures forall threshold: Word :: RxDecode.Bit(1, threshold)
    ensures UsedLoops(budget, RxWidth.Remaining(1, budget)) == 0
    ensures Classify(tswim, LoopsToNs(clk, UsedLoops(budget, RxWidth.Remaining(1, budget)))) == Unreadable
  {
    DivLargest(clk / 2, clk, 1);
  }

  /** The widths a receiver can report: their microseconds come from their nanoseconds,
      with the 32-bit wrap of the C expression. */
  predicate Reported(w: Width) {
    w.lowNs < U32 && w.lowUs == (w.lowNs + 999) % U32 / 1000
  }

  lemma MaskFits(raw: nat, p: nat)
    requires p > 0
    ensures raw % p <= raw && raw % p < p && (raw < p ==> raw % p == raw)
  {
    assert raw == p * (raw / p) + raw % p;
    assert raw / p >= 0 && p * (raw / p) >= 0;
  }

  /** `others` is the instruction memory that other programs on the block take, the TX
      program at least; `loaded` whether the program of `mode` is in memory. */
  class Receiver {
    const clk: nat
    const others: nat
    var initialized: bool
    var mode: Mode
    var loaded: bool
    var lastBudget: Word
    var sm: Sm
    var irq: bool
    var enabled: bool

    ghost predicate Valid()
      reads this
    {
      0 < clk < U32 && lastBudget <= MAX_LOOPS
    }

    predicate Fits(target: Mode) {
      others + SizeOf(target) <= PIO_MEMORY
    }

    /** switch_rx_program: the old program is gone before room for the new one is looked for,
        and the mode keeps its name; an OK for that mode then says nothing about memory. With
        the TX program alone on the block both programs fit. */
    method SwitchProgram(target: Mode) returns (status: Status)
      requires Valid()
      modifies this
      ensures Valid() && initialized == old(initialized) && lastBudget == old(lastBudget) && irq == old(irq)
      ensures status == Ok <==> old(initialized) && (old(mode) == target || Fits(target))
      ensures status == Ok || status == Internal
      ensures status == Ok ==> mode == target && (loaded <==> old(loaded) || old(mode) != target)
      ensures status != Ok ==> mode == old(mode) && (loaded <==> old(loaded) && !old(initialized))
      ensures others == WAVEFORM_SIZE && old(initialized) && old(loaded) ==> status == Ok && loaded
      ensures old(initialized) && old(mode) != target ==> sm.tx == [] && sm.rx == [] && !enabled
      ensures !old(initialized) || old(mode) == target ==> sm == old(sm) && mode == old(mode) && loaded == old(loaded)
    {
      if !initialized {
        return Internal;
      }
      if mode == target {
        return Ok;
      }
      enabled := false;
      sm := sm.(tx := [], rx := []);
      loaded := false;
      if !Fits(target) {
        return Internal;
      }
      loaded := true;
      sm := sm.(pc := 0);
      mode := target;
      return Ok;
    }

    /** swim_pio_rx_arm_after_tx_done. */
    method ArmWidth(budget: Word) returns (status: Status)
      requires Valid()
      modifies this
      ensures Valid()
      ensures status == Ok <==> old(initialized) && (old(mode) == WidthProgram || Fits(WidthProgram)) && 1 <= budget <= MAX_LOOPS
      ensures status == Ok ==>
        mode == WidthProgram && enabled && !irq && lastBudget == budget
        && sm.pc == 0 && sm.tx == [0, budget] && sm.rx == []
      ensures status == Ok ==> (loaded <==> old(loaded) || old(mode) != WidthProgram)
      ensures status != Ok ==> lastBudget == old(lastBudget)
    {
      if !initialized {
        return Internal;
      }
      status := SwitchProgram(WidthProgram);
      if status != Ok {
        return status;
      }
      if budget == 0 || budget > MAX_LOOPS {
        return BadArgument;
      }
      lastBudget := budget;
      enabled := false;
      sm := sm.(pc := 0, isr := 0, tx := [], rx := []);
      irq := false;
      sm := sm.(tx := sm.tx + [0]);
      sm := sm.(tx := sm.tx + [budget]);
      enabled := true;
      return Ok;
    }

    /** swim_pio_rx_arm_decode_bits_after_tx_done. */
    method ArmDecode(count: nat, threshold: Word) returns (status: Status)
      requires Valid()
      modifies this
      ensures Valid() && lastBudget == old(lastBudget)
      ensures status == Ok <==> old(initialized) && (old(mode) == DecodeProgram || Fits(DecodeProgram))
                                && 1 <= count <= 31 && threshold >= 1
      ensures status == Ok ==>
        mode == DecodeProgram && enabled && !irq && RxDecode.Armed(sm, count, threshold)
      ensures status == Ok ==> (loaded <==> old(loaded) || old(mode) != DecodeProgram)
    {
      if count == 0 || count > 31 || threshold == 0 {
        return BadArgument;
      }
      if !initialized {
        return Internal;
      }
      status := SwitchProgram(DecodeProgram);
      if status != Ok {
        return status;
      }
      enabled := false;
      sm := sm.(pc := 0, isr := 0, tx := [], rx := []);
      irq := false;
      sm := sm.(tx := sm.tx + [count - 1]);
      sm := sm.(tx := sm.tx + [threshold]);
      enabled := true;
      return Ok;
    }

    /** swim_pio_rx_get_width, once the poll has ended: with a word, or at the deadline. For the
        word that a low of `low` clocks pushes the report is of the low samples within the
        budget, and of the time they take. */
    method GetWidth() returns (status: Status, out: Width)
      requires Valid()
      modifies this
      ensures Valid() && lastBudget == old(lastBudget)
      ensures !old(initialized) ==> status == Internal
      ensures old(initialized) && old(sm.rx) == [] ==> status == SwimTimeout && out.timeout && out.loopsUsed == 0
      ensures old(initialized) && old(sm.rx) != [] ==>
        && status == Ok && sm.rx == old(sm.rx)[1..] && !enabled && !out.timeout && Reported(out)
        && out.loopsUsed == UsedLoops(lastBudget, old(sm.rx)[0]) && out.lowNs == LoopsToNs(clk, out.loopsUsed)
        && forall low :: old(sm.rx)[0] == RxWidth.Remaining(low, lastBudget) ==>
             && out.loopsUsed == Calibration.LoopsUsed(low, lastBudget)
             && out.lowNs == Calibration.CapturedNs(clk, lastBudget, low)
    {
      out := Width(0, 0, 0, true);
      if !initialized {
        return Internal, out;
      }
      enabled := false;
      if sm.rx == [] {
        return SwimTimeout, out;
      }
      var remaining := sm.rx[0];
      sm := sm.(rx := sm.rx[1..]);
      var loops: nat := 0;
      if lastBudget >= remaining {
        loops := lastBudget - remaining;
      }
      var ns := LoopsToNs(clk, loops);
      forall low | remaining == RxWidth.Remaining(low, lastBudget)
        ensures loops == Calibration.LoopsUsed(low, lastBudget)
      {
        UsedLoopsExact(lastBudget, low);
      }
      return Ok, Width(loops, ns, (ns + 999) % U32 / 1000, false);
    }

    /** swim_pio_rx_get_decoded_bits: the word with everything above the requested bits
        masked off. */
    method GetDecodedBits(count: nat) returns (status: Status, bits: Word)
      requires Valid()
      modifies this
      ensures Valid()
      ensures status == BadArgument <==> count == 0 || count > 31
      ensures 1 <= count <= 31 && old(initialized) && old(sm.rx) == [] ==> status == SwimTimeout && bits == 0
      ensures 1 <= count <= 31 && old(initialized) && old(sm.rx) != [] ==>
        && status == Ok && bits == old(sm.rx)[0] % BitVectors.Pow2(count) && bits < BitVectors.Pow2(count)
        && (old(sm.rx)[0] < BitVectors.Pow2(count) ==> bits == old(sm.rx)[0])
    {
      bits := 0;
      if count == 0 || count > 31 {
        return BadArgument, bits;
      }
      if !initialized {
        return Internal, bits;
      }
      enabled := false;
      if sm.rx == [] {
        return SwimTimeout, bits;
      }
      var raw := sm.rx[0];
      sm := sm.(rx := sm.rx[1..]);
      MaskFits(raw, BitVectors.Pow2(count));
      return Ok, raw % BitVectors.Pow2(count);
    }
  }
}
