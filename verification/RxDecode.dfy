/**
Watching a line: a machine fed one line sample a clock.
*/
module Watching {
  /** The state after `n` clocks at one level. */
  function Hold<S>(clock: (S, bool) -> S, s: S, level: bool, n: nat): S {
    if n == 0 then s else Hold(clock, clock(s, level), level, n - 1)
  }

  /** The state after watching `line` (true is high). */
  function Watch<S>(clock: (S, bool) -> S, s: S, line: seq<bool>): S
    decreases |line|
  {
    if line == [] then s else Watch(clock, clock(s, line[0]), line[1..])
  }

  function Line(level: bool, n: nat): (l: seq<bool>)
    ensures |l| == n
  {
    seq(n, _ => level)
  }

  lemma {:induction false} WatchAppend<S>(clock: (S, bool) -> S, s: S, a: seq<bool>, b: seq<bool>)
    ensures Watch(clock, s, a + b) == Watch(clock, Watch(clock, s, a), b)
    decreases |a|
  {
    if a == [] {
      assert a + b == b;
    } else {
      assert (a + b)[1..] == a[1..] + b;
      WatchAppend(clock, clock(s, a[0]), a[1..], b);
    }
  }

  lemma WatchNext<S>(clock: (S, bool) -> S, s: S, line: seq<bool>, pin: bool)
    ensures Watch(clock, s, line + [pin]) == clock(Watch(clock, s, line), pin)
  {
    WatchAppend(clock, s, line, [pin]);
    assert [pin][1..] == [];
    assert Watch(clock, clock(Watch(clock, s, line), pin), []) == clock(Watch(clock, s, line), pin);
  }

  lemma WatchTwo<S>(clock: (S, bool) -> S, s: S, a: bool, b: bool, line: seq<bool>)
    ensures Watch(clock, s, [a, b] + line) == Watch(clock, clock(clock(s, a), b), line)
  {
    assert ([a, b] + line)[1..] == [b] + line && ([b] + line)[1..] == line;
  }

  lemma {:induction false} WatchLine<S>(clock: (S, bool) -> S, s: S, level: bool, n: nat)
    ensures Watch(clock, s, Line(level, n)) == Hold(clock, s, level, n)
    decreases n
  {
    if n > 0 {
      assert Line(level, n)[1..] == Line(level, n - 1);
      WatchLine(clock, clock(s, level), level, n - 1);
    }
  }

  lemma {:induction false} HoldAdd<S>(clock: (S, bool) -> S, s: S, level: bool, m: nat, n: nat)
    ensures Hold(clock, s, level, m + n) == Hold(clock, Hold(clock, s, level, m), level, n)
    decreases m
  {
    if m > 0 {
      HoldAdd(clock, clock(s, level), level, m - 1, n);
    }
  }

  /** A stalled machine stays where it is. */
  lemma {:induction false} HoldStuck<S>(clock: (S, bool) -> S, s: S, level: bool, n: nat)
    requires clock(s, level) == s
    ensures Hold(clock, s, level, n) == s
  {
    if n > 0 {
      HoldStuck(clock, s, level, n - 1);
    }
  }

  /** A machine that gets to a stalled state within `m` clocks is still there after `n`. */
  lemma WatchSettles<S>(clock: (S, bool) -> S, s: S, rest: S, level: bool, m: nat, n: nat)
    requires m <= n && Hold(clock, s, level, m) == rest && clock(rest, level) == rest
    ensures Watch(clock, s, Line(level, n)) == rest
  {
    WatchLine(clock, s, level, n);
    HoldAdd(clock, s, level, m, n - m);
    HoldStuck(clock, rest, level, n - m);
  }

  /** A low of `low` clocks is sampled low / 2 times: once every other clock, from
      the clock after the falling edge. */
  function Samples(low: nat): nat {
    low / 2
  }

  /** A low pulse and the high gap after it, in clocks. */
  datatype Pulse = Pulse(low: nat, high: nat)

  function Trace(pulses: seq<Pulse>): seq<bool> {
    if pulses == [] then []
    else Line(false, pulses[0].low) + (Line(true, pulses[0].high) + Trace(pulses[1..]))
  }
}

/**
The one-word bit decoder: what it pushes for a sequence of low pulses, and how long
after each rising edge it is deaf.
*/
module RxDecode {
  import opened BitVectors
  import opened Pio
  import opened Watching

  function Clock(o: Outcome, pin: bool): Outcome {
    if o.sm.pc < RX_DECODE_SIZE then
      Execute(RxDecodeAt(o.sm.pc), Next(RX_DECODE_SIZE, o.sm.pc), o.sm, pin, o.irq)
    else o
  }

  /** The machine runs the program on a line, from the flag `irq`. */
  method Listen(sm: StateMachine, line: seq<bool>, irq: bool) returns (flag: bool)
    requires sm.pc < RX_DECODE_SIZE
    modifies sm
    ensures Outcome(sm.Now(), flag) == Watch(Clock, Outcome(old(sm.Now()), irq), line)
  {
    flag := irq;
    for i := 0 to |line|
      invariant sm.pc < RX_DECODE_SIZE
      invariant Outcome(sm.Now(), flag) == Watch(Clock, Outcome(old(sm.Now()), irq), line[..i])
    {
      ghost var before := Outcome(sm.Now(), flag);
      flag := sm.Clock(RxDecodeAt(sm.pc), Next(RX_DECODE_SIZE, sm.pc), line[i], flag);
      assert line[..i + 1] == line[..i] + [line[i]];
      WatchNext(Clock, Outcome(old(sm.Now()), irq), line[..i], line[i]);
      StaysInside(before, line[i]);
    }
    assert line[..|line|] == line;
  }

  lemma StaysInside(o: Outcome, pin: bool)
    requires o.sm.pc < RX_DECODE_SIZE
    ensures Clock(o, pin).sm.pc < RX_DECODE_SIZE
  {
  }

  /** The decoded bit: 1 when the line came back within `threshold` low samples. */
  predicate Bit(low: nat, threshold: Word) {
    Samples(low) <= threshold
  }

  /** High clocks needed after the pulse before the decoder waits for the next edge. */
  function Latency(low: nat, threshold: Word): (n: nat)
    ensures 5 <= n <= 7
  {
    if Bit(low, threshold) then (if low % 2 == 1 then 6 else 7)
    else if low == 2 * threshold + 2 then 6 else 5
  }

  function Shifted(s: Sm, bit: bool): Word {
    ShiftIn(s.isr, if bit then 1 else 0)
  }

  /** The machine ready for the next bit, or, after the last one, with the word pushed. */
  function Decoded(s: Sm, bit: bool): Sm {
    if s.y != 0 then s.(pc := 6, x := s.osr, y := s.y - 1, isr := Shifted(s, bit))
    else s.(pc := 0, x := if bit then 1 else 0xFFFF_FFFF, y := 0xFFFF_FFFF, isr := 0,
            rx := s.rx + [Shifted(s, bit)])
  }

  lemma {:induction false} CountLow(s: Sm, irq: bool, m: nat)
    requires s.pc == 7 && m <= s.x
    ensures Hold(Clock, Outcome(s, irq), false, 2 * m) == Outcome(s.(x := s.x - m), irq)
    decreases m
  {
    if m > 0 {
      var o := Clock(Outcome(s, irq), false);
      assert o == Outcome(s.(pc := 8), irq);
      var o2 := Clock(o, false);
      assert o2 == Outcome(s.(x := s.x - 1), irq);
      assert Hold(Clock, Outcome(s, irq), false, 2 * m) == Hold(Clock, o, false, 2 * m - 1);
      CountLow(o2.sm, irq, m - 1);
    }
  }

  /** Neither waiting for a falling edge nor finished with the word. */
  predicate Deaf(o: Outcome, was: Sm) {
    o.sm.pc != 6 && o.sm.pc != 0 && o.sm.rx == was.rx
  }

  /** On a high line: deaf for `n` clocks, and then ready for the next bit, or finished. */
  ghost predicate Rises(o: Outcome, was: Sm, bit: bool, n: nat)
    decreases n, was
  {
    if n == 0 then o.sm == Decoded(was, bit)
    else Deaf(o, was) && Clock(o, true).irq == o.irq && Rises(Clock(o, true), was, bit, n - 1)
  }

  lemma {:induction false} RisesHold(o: Outcome, was: Sm, bit: bool, n: nat, i: nat)
    requires Rises(o, was, bit, n) && i <= n
    ensures if i < n then Deaf(Hold(Clock, o, true, i), was)
            else Hold(Clock, o, true, i) == Outcome(Decoded(was, bit), o.irq)
    decreases n
  {
    if i > 0 {
      RisesHold(Clock(o, true), was, bit, n - 1, i - 1);
    }
  }

  lemma {:induction false} BitDone(s: Sm, irq: bool, was: Sm, bit: bool)
    requires Within(s, was, 15) && s.isr == Shifted(was, bit)
    requires s.x == (if bit then 1 else 0xFFFF_FFFF)
    ensures Rises(Outcome(s, irq), was, bit, 2)
  {
    var o1 := Clock(Outcome(s, irq), true);
    if was.y != 0 {
      assert o1 == Outcome(s.(pc := 5, y := s.y - 1), irq);
    } else {
      assert o1 == Outcome(s.(pc := 16, y := 0xFFFF_FFFF), irq);
    }
    assert Rises(Clock(o1, true), was, bit, 0);
    assert Rises(o1, was, bit, 1);
  }

  /** `s` has got to address `pc` of the bit that started in `was`. */
  predicate Within(s: Sm, was: Sm, pc: nat) {
    && s.pc == pc && s.y == was.y && s.osr == was.osr && s.low == was.low
    && s.tx == was.tx && s.rx == was.rx && |s.rx| < RX_DEPTH
  }

  lemma OneShift(s: Sm, irq: bool, was: Sm)
    requires Within(s, was, 14) && s.x == 1 && s.isr == was.isr
    ensures Rises(Outcome(s, irq), was, true, 3)
  {
    assert Clock(Outcome(s, irq), true) == Outcome(s.(pc := 15, isr := Shifted(s, true)), irq);
    BitDone(s.(pc := 15, isr := Shifted(s, true)), irq, was, true);
  }

  lemma OneWait(s: Sm, irq: bool, was: Sm)
    requires Within(s, was, 13) && s.x == 1 && s.isr == was.isr
    ensures Rises(Outcome(s, irq), was, true, 4)
  {
    assert Clock(Outcome(s, irq), true) == Outcome(s.(pc := 14), irq);
    OneShift(s.(pc := 14), irq, was);
  }

  /** From bit_one to the next bit. */
  lemma OneTail(s: Sm, irq: bool, was: Sm)
    requires Within(s, was, 12) && s.isr == was.isr
    ensures Rises(Outcome(s, irq), was, true, 5)
  {
    assert Clock(Outcome(s, irq), true) == Outcome(s.(pc := 13, x := 1), irq);
    OneWait(s.(pc := 13, x := 1), irq, was);
  }

  lemma ZeroJump(s: Sm, irq: bool, was: Sm)
    requires Within(s, was, 11) && s.x == 0xFFFF_FFFF && s.isr == Shifted(was, false)
    ensures Rises(Outcome(s, irq), was, false, 3)
  {
    assert Clock(Outcome(s, irq), true) == Outcome(s.(pc := 15), irq);
    BitDone(s.(pc := 15), irq, was, false);
  }

  lemma ZeroShift(s: Sm, irq: bool, was: Sm)
    requires Within(s, was, 10) && s.x == 0xFFFF_FFFF && s.isr == was.isr
    ensures Rises(Outcome(s, irq), was, false, 4)
  {
    assert Clock(Outcome(s, irq), true) == Outcome(s.(pc := 11, isr := Shifted(s, false)), irq);
    ZeroJump(s.(pc := 11, isr := Shifted(s, false)), irq, was);
  }

  /** From bit_zero, once the line is high, to the next bit. */
  lemma ZeroTail(s: Sm, irq: bool, was: Sm)
    requires Within(s, was, 9) && s.x == 0xFFFF_FFFF && s.isr == was.isr
    ensures Rises(Outcome(s, irq), was, false, 5)
  {
    assert Clock(Outcome(s, irq), true) == Outcome(s.(pc := 10), irq);
    ZeroShift(s.(pc := 10), irq, was);
  }

  /** At `wait 0 pin`, ready to time the next low. */
  predicate Waiting(s: Sm, threshold: Word) {
    s.pc == 6 && s.x == threshold && s.osr == threshold && |s.rx| < RX_DEPTH
  }

  /** Where the machine is when the low ends. */
  function AtRise(s: Sm, low: nat): Sm
    requires low >= 1
  {
    if Samples(low) <= s.x then
      (if low % 2 == 1 then s.(pc := 7, x := s.x - Samples(low))
       else s.(pc := 8, x := s.x - Samples(low) + 1))
    else if low == 2 * s.x + 2 then s.(pc := 8, x := 0)
    else s.(pc := 9, x := 0xFFFF_FFFF)
  }

  lemma LowLead(s: Sm, irq: bool, m: nat)
    requires s.pc == 6 && m <= s.x
    ensures Hold(Clock, Outcome(s, irq), false, 1 + 2 * m) == Outcome(s.(pc := 7, x := s.x - m), irq)
  {
    var o := Outcome(s.(pc := 7), irq);
    assert Clock(Outcome(s, irq), false) == o;
    CountLow(o.sm, irq, m);
  }

  /** After the last sample the budget allows: one more clock, then bit_zero for as long
      as the line stays low. */
  lemma LowRest(s: Sm, irq: bool, n: nat)
    requires s.pc == 7 && s.x == 0 && n >= 2
    ensures Hold(Clock, Outcome(s, irq), false, n) == Outcome(s.(pc := 9, x := 0xFFFF_FFFF), irq)
  {
    var o1 := Outcome(s.(pc := 8), irq);
    var o2 := Outcome(s.(pc := 9, x := 0xFFFF_FFFF), irq);
    assert Clock(Outcome(s, irq), false) == o1;
    assert Clock(o1, false) == o2;
    assert Clock(o2, false) == o2;
    HoldStuck(Clock, o2, false, n - 2);
    assert Hold(Clock, o1, false, n - 1) == Hold(Clock, o2, false, n - 2);
  }

  lemma {:induction false} LowPart(s: Sm, irq: bool, low: nat)
    requires s.pc == 6 && low >= 1
    ensures Hold(Clock, Outcome(s, irq), false, low) == Outcome(AtRise(s, low), irq)
  {
    var m := if Samples(low) <= s.x then (low - 1) / 2 else s.x;
    LowLead(s, irq, m);
    HoldAdd(Clock, Outcome(s, irq), false, 1 + 2 * m, low - 1 - 2 * m);
    var mid := s.(pc := 7, x := s.x - m);
    if low - 1 - 2 * m == 1 {
      assert Clock(Outcome(mid, irq), false) == Outcome(mid.(pc := 8), irq);
    } else if low - 1 - 2 * m >= 2 {
      LowRest(mid, irq, low - 1 - 2 * m);
    }
  }

  lemma {:induction false} ZeroRises(s: Sm, irq: bool, low: nat)
    requires Waiting(s, s.x) && low >= 1 && !Bit(low, s.x)
    ensures Rises(Outcome(AtRise(s, low), irq), s, false, Latency(low, s.x))
  {
    if low == 2 * s.x + 2 {
      assert Clock(Outcome(s.(pc := 8, x := 0), irq), true) == Outcome(s.(pc := 9, x := 0xFFFF_FFFF), irq);
    }
    ZeroTail(s.(pc := 9, x := 0xFFFF_FFFF), irq, s);
  }

  lemma {:induction false} SampledRises(s: Sm, irq: bool, x: Word)
    requires Waiting(s, s.x)
    ensures Rises(Outcome(s.(pc := 7, x := x), irq), s, true, 6)
  {
    assert Clock(Outcome(s.(pc := 7, x := x), irq), true) == Outcome(s.(pc := 12, x := x), irq);
    OneTail(s.(pc := 12, x := x), irq, s);
  }

  lemma {:induction false} BackRises(s: Sm, irq: bool, x: Word)
    requires Waiting(s, s.x) && x > 0
    ensures Rises(Outcome(s.(pc := 8, x := x), irq), s, true, 7)
  {
    assert Clock(Outcome(s.(pc := 8, x := x), irq), true) == Outcome(s.(pc := 7, x := x - 1), irq);
    SampledRises(s, irq, x - 1);
  }

  lemma {:induction false} OneRises(s: Sm, irq: bool, low: nat)
    requires Waiting(s, s.x) && low >= 1 && Bit(low, s.x)
    ensures Rises(Outcome(AtRise(s, low), irq), s, true, Latency(low, s.x))
  {
    var x := s.x - Samples(low);
    if low % 2 == 0 {
      BackRises(s, irq, x + 1);
    } else {
      SampledRises(s, irq, x);
    }
  }

  /** At the two places it can be left in, the machine stalls on a high line. */
  lemma Idles(o: Outcome)
    requires o.sm.pc == 6 || (o.sm.pc == 0 && o.sm.tx == [])
    ensures Clock(o, true) == o
  {
  }

  lemma {:induction false} RisesAndStays(o: Outcome, s: Sm, bit: bool, latency: nat, high: nat)
    requires Rises(o, s, bit, latency) && s.tx == []
    ensures if high < latency then Deaf(Hold(Clock, o, true, high), s)
            else Hold(Clock, o, true, high) == Outcome(Decoded(s, bit), o.irq)
  {
    RisesHold(o, s, bit, latency, if high < latency then high else latency);
    if high >= latency {
      HoldAdd(Clock, o, true, latency, high - latency);
      Idles(Outcome(Decoded(s, bit), o.irq));
      HoldStuck(Clock, Outcome(Decoded(s, bit), o.irq), true, high - latency);
    }
  }

  function PulseLine(low: nat, high: nat): seq<bool> {
    Line(false, low) + Line(true, high)
  }

  lemma PulseIsHolds(s: Sm, irq: bool, low: nat, high: nat)
    requires s.pc == 6 && low >= 1
    ensures Watch(Clock, Outcome(s, irq), PulseLine(low, high))
         == Hold(Clock, Outcome(AtRise(s, low), irq), true, high)
  {
    var o := Outcome(s, irq);
    WatchAppend(Clock, o, Line(false, low), Line(true, high));
    WatchLine(Clock, o, false, low);
    LowPart(s, irq, low);
    WatchLine(Clock, Outcome(AtRise(s, low), irq), true, high);
  }

  /** One bit: a low of `low` clocks and `high` clocks of high line. The machine is ready
      for the next bit, or finished, if and only if the gap is at least Latency. */
  lemma {:induction false} BitDecodes(s: Sm, irq: bool, low: nat, high: nat)
    requires Waiting(s, s.x) && low >= 1 && s.tx == []
    ensures var o := Watch(Clock, Outcome(s, irq), PulseLine(low, high));
            if high >= Latency(low, s.x) then o == Outcome(Decoded(s, Bit(low, s.x)), irq)
            else Deaf(o, s)
  {
    PulseIsHolds(s, irq, low, high);
    if Bit(low, s.x) { OneRises(s, irq, low); } else { ZeroRises(s, irq, low); }
    RisesAndStays(Outcome(AtRise(s, low), irq), s, Bit(low, s.x), Latency(low, s.x), high);
  }

  // ----- whole words -----

  /** Bits packed MSB first. */
  function Pack(bits: seq<bool>): nat {
    if bits == [] then 0 else 2 * Pack(bits[..|bits| - 1]) + (if bits[|bits| - 1] then 1 else 0)
  }

  lemma {:induction false} PackBound(bits: seq<bool>)
    ensures Pack(bits) < Pow2(|bits|)
  {
    if bits != [] {
      PackBound(bits[..|bits| - 1]);
    }
  }

  /** What the pulses mean. */
  function Bits(pulses: seq<Pulse>, threshold: Word): (b: seq<bool>)
    ensures |b| == |pulses|
    ensures forall i :: 0 <= i < |b| ==> b[i] == Bit(pulses[i].low, threshold)
  {
    seq(|pulses|, i requires 0 <= i < |pulses| => Bit(pulses[i].low, threshold))
  }

  /** Each pulse is long enough to be seen, and each gap outlasts the decoder's loop. */
  ghost predicate Separated(pulses: seq<Pulse>, threshold: Word) {
    forall i :: 0 <= i < |pulses| ==>
      pulses[i].low >= 1 && pulses[i].high >= Latency(pulses[i].low, threshold)
  }

  lemma {:induction false} ShiftPacks(isr: Word, bits: seq<bool>, bit: bool)
    requires isr == Pack(bits) && |bits| < 32
    ensures ShiftIn(isr, if bit then 1 else 0) == Pack(bits + [bit])
  {
    assert (bits + [bit])[..|bits|] == bits;
    PackBound(bits + [bit]);
    Pow2Grows(|bits| + 1, 32);
    Pow2At32();
  }

  lemma {:induction false} FirstPulse(s: Sm, irq: bool, p: Pulse, rest: seq<bool>)
    requires Waiting(s, s.x) && s.tx == []
    requires p.low >= 1 && p.high >= Latency(p.low, s.x)
    ensures Watch(Clock, Outcome(s, irq), PulseLine(p.low, p.high) + rest)
         == Watch(Clock, Outcome(Decoded(s, Bit(p.low, s.x)), irq), rest)
  {
    BitDecodes(s, irq, p.low, p.high);
    WatchAppend(Clock, Outcome(s, irq), PulseLine(p.low, p.high), rest);
  }

  /** Back at `start` with `word` pushed and nothing more to do. */
  predicate Delivered(o: Outcome, was: Outcome, word: nat) {
    && o.irq == was.irq && o.sm.pc == 0 && o.sm.tx == []
    && |o.sm.rx| == |was.sm.rx| + 1 && o.sm.rx[..|was.sm.rx|] == was.sm.rx
    && o.sm.rx[|was.sm.rx|] == word
  }

  lemma {:induction false} LastBit(s: Sm, irq: bool, bits: seq<bool>, bit: bool)
    requires s.y == 0 && |s.rx| < RX_DEPTH && s.tx == [] && s.isr == Pack(bits) && |bits| < 32
    ensures Delivered(Outcome(Decoded(s, bit), irq), Outcome(s, irq), Pack(bits + [bit]))
  {
    ShiftPacks(s.isr, bits, bit);
  }

  lemma {:induction false} NextBit(s: Sm, irq: bool, bits: seq<bool>, bit: bool)
    requires s.y > 0 && Waiting(s, s.x) && s.isr == Pack(bits) && |bits| < 32
    ensures var d := Decoded(s, bit);
            Waiting(d, s.x) && d.x == s.x && d.y == s.y - 1 && d.tx == s.tx && d.rx == s.rx
            && d.isr == Pack(bits + [bit])
  {
    ShiftPacks(s.isr, bits, bit);
  }

  lemma BitsCons(pulses: seq<Pulse>, threshold: Word, bits: seq<bool>)
    requires |pulses| >= 1
    ensures bits + Bits(pulses, threshold)
         == bits + [Bit(pulses[0].low, threshold)] + Bits(pulses[1..], threshold)
    ensures |pulses| == 1 ==> bits + Bits(pulses, threshold) == bits + [Bit(pulses[0].low, threshold)]
  {
  }

  lemma {:induction false} TraceCons(s: Sm, irq: bool, pulses: seq<Pulse>)
    requires Waiting(s, s.x) && s.tx == [] && Separated(pulses, s.x) && |pulses| >= 1
    ensures Watch(Clock, Outcome(s, irq), Trace(pulses))
         == Watch(Clock, Outcome(Decoded(s, Bit(pulses[0].low, s.x)), irq), Trace(pulses[1..]))
  {
    assert Trace(pulses) == PulseLine(pulses[0].low, pulses[0].high) + Trace(pulses[1..]);
    FirstPulse(s, irq, pulses[0], Trace(pulses[1..]));
  }

  /** Bit by bit: from `wait 0 pin` with the bits so far in ISR and |pulses| - 1 in Y. */
  lemma {:induction false} PulsesDecode(s: Sm, irq: bool, bits: seq<bool>, pulses: seq<Pulse>)
    requires Waiting(s, s.x) && s.tx == [] && Separated(pulses, s.x)
    requires |pulses| >= 1 && s.y == |pulses| - 1 && |bits| + |pulses| <= 32 && s.isr == Pack(bits)
    ensures Delivered(Watch(Clock, Outcome(s, irq), Trace(pulses)), Outcome(s, irq),
                      Pack(bits + Bits(pulses, s.x)))
    decreases |pulses|
  {
    BitsCons(pulses, s.x, bits);
    TraceCons(s, irq, pulses);
    if |pulses| == 1 {
      LastBit(s, irq, bits, Bit(pulses[0].low, s.x));
    } else {
      NextBit(s, irq, bits, Bit(pulses[0].low, s.x));
      PulsesDecode(Decoded(s, Bit(pulses[0].low, s.x)), irq, bits + [Bit(pulses[0].low, s.x)], pulses[1..]);
    }
  }

  /** As the driver arms it: restarted, IRQ0 cleared, bit count - 1 and threshold queued. */
  predicate Armed(s: Sm, count: nat, threshold: Word) {
    1 <= count <= 31 && s.pc == 0 && s.tx == [count - 1, threshold] && s.rx == []
  }

  /** Parked at `wait 1 irq 0` with both parameters loaded. */
  predicate Parked(s: Sm, count: nat, threshold: Word) {
    1 <= count <= 31 && s.pc == 3 && s.y == count - 1 && s.osr == threshold && s.tx == [] && s.rx == []
  }

  /** The three clocks after arming, at any line levels, park the machine. */
  lemma ArmedParks(s: Sm, a: bool, b: bool, c: bool, count: nat, threshold: Word)
    requires Armed(s, count, threshold)
    ensures var o := Clock(Clock(Clock(Outcome(s, false), a), b), c);
            Parked(o.sm, count, threshold) && !o.irq
  {
    assert Clock(Outcome(s, false), a) == Outcome(s.(pc := 1, osr := count - 1, tx := [threshold]), false);
  }

  lemma ParkedStays(s: Sm, pin: bool, count: nat, threshold: Word)
    requires Parked(s, count, threshold)
    ensures Clock(Outcome(s, false), pin) == Outcome(s, false)
  {
  }

  /** IRQ0 wakes it: three clocks later it waits for the first falling edge with an
      empty ISR, and the flag is consumed. */
  lemma Wakes(s: Sm, a: bool, b: bool, c: bool, count: nat, threshold: Word)
    requires Parked(s, count, threshold)
    ensures Clock(Clock(Clock(Outcome(s, true), a), b), c)
         == Outcome(s.(pc := 6, isr := 0, x := threshold), false)
  {
    assert Clock(Outcome(s, true), a) == Outcome(s.(pc := 4), false);
    assert Clock(Outcome(s.(pc := 4), false), b) == Outcome(s.(pc := 5, isr := 0), false);
  }

  /** The whole capture: woken with the line high for `idle` >= 3 clocks, then pulses that
      the decoder can tell apart. One word is pushed; bit i of it, counted from the top
      of the N low bits, is 1 exactly where pulse i had at most `threshold` low samples. */
  lemma {:induction false} DecodesWord(s: Sm, threshold: Word, idle: nat, pulses: seq<Pulse>)
    requires Parked(s, |pulses|, threshold) && idle >= 3 && Separated(pulses, threshold)
    ensures var o := Watch(Clock, Outcome(s, true), Line(true, idle) + Trace(pulses));
            && o.sm.pc == 0 && !o.irq
            && o.sm.rx == [Pack(Bits(pulses, threshold))]
            && Pack(Bits(pulses, threshold)) < Pow2(|pulses|)
  {
    WatchAppend(Clock, Outcome(s, true), Line(true, idle), Trace(pulses));
    WakesWaiting(s, idle, |pulses|, threshold);
    WordFollows(s.(pc := 6, isr := 0, x := threshold), threshold, pulses);
    PackBound(Bits(pulses, threshold));
  }

  lemma {:induction false} WordFollows(s: Sm, threshold: Word, pulses: seq<Pulse>)
    requires Waiting(s, threshold) && s.tx == [] && s.rx == [] && s.isr == 0
    requires 1 <= |pulses| <= 31 && s.y == |pulses| - 1 && Separated(pulses, threshold)
    ensures var o := Watch(Clock, Outcome(s, false), Trace(pulses));
            && o.sm.pc == 0 && !o.irq
            && o.sm.rx == [Pack(Bits(pulses, threshold))]
  {
    var none: seq<bool> := [];
    assert none + Bits(pulses, threshold) == Bits(pulses, threshold);
    PulsesDecode(s, false, none, pulses);
    OnlyWord(Watch(Clock, Outcome(s, false), Trace(pulses)), Outcome(s, false), Pack(Bits(pulses, threshold)));
  }

  /** The word a machine with an empty FIFO has delivered is the only one in it. */
  lemma OnlyWord(o: Outcome, was: Outcome, word: nat)
    requires Delivered(o, was, word) && was.sm.rx == [] && !was.irq
    ensures o.sm.pc == 0 && !o.irq && o.sm.rx == [word]
  {
  }

  lemma WakesWaiting(s: Sm, idle: nat, count: nat, threshold: Word)
    requires Parked(s, count, threshold) && idle >= 3
    ensures Watch(Clock, Outcome(s, true), Line(true, idle))
         == Outcome(s.(pc := 6, isr := 0, x := threshold), false)
  {
    HoldWakes(s, count, threshold);
    Idles(Outcome(s.(pc := 6, isr := 0, x := threshold), false));
    WatchSettles(Clock, Outcome(s, true), Outcome(s.(pc := 6, isr := 0, x := threshold), false), true, 3, idle);
  }

  lemma {:induction false} HoldWakes(s: Sm, count: nat, threshold: Word)
    requires Parked(s, count, threshold)
    ensures Hold(Clock, Outcome(s, true), true, 3) == Outcome(s.(pc := 6, isr := 0, x := threshold), false)
  {
    HoldThree(Outcome(s, true));
    Wakes(s, true, true, true, count, threshold);
  }

  lemma HoldThree(o: Outcome)
    ensures Hold(Clock, o, true, 3) == Clock(Clock(Clock(o, true), true), true)
  {
    HoldAdd(Clock, o, true, 1, 2);
    HoldAdd(Clock, Clock(o, true), true, 1, 1);
  }
}
