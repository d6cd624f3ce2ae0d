/**
The timing arithmetic: cycles, receiver loops, nanoseconds and SWIM clocks. All values
are unbounded integers here; the overflow lemmas say that the C types hold them.
*/
module Timing {
  import opened BitVectors

  const GIGA := 1_000_000_000
  const U64 := 0x1_0000_0000_0000_0000
  const MAX_LOOPS := 0x7fff_ffff

  const SYNC_CLOCKS := 128
  const ONE_MAX_LOW_CLOCKS := 8
  const ZERO_MIN_LOW_CLOCKS := 9
  const SYNC_MIN_US := 8
  const SYNC_MAX_US := 300

  // ----- conversions -----

  function CyclesFor(clk: nat, ns: nat): nat {
    (clk * ns + 999_999_999) / GIGA
  }

  function NsToMaxLoops(clk: nat, ns: nat): nat {
    var loops := (CyclesFor(clk, ns) + 1) / 2;
    if loops == 0 then 1 else if loops > MAX_LOOPS then MAX_LOOPS else loops
  }

  function LoopsToNs(clk: nat, loops: nat): nat
    requires clk > 0
  {
    var ns := (loops * 2 * GIGA + clk / 2) / clk;
    if ns >= U32 then U32 - 1 else ns
  }

  function NsToUs(ns: nat): nat {
    (ns + 999) / 1000
  }

  lemma MulBounds(a: nat, b: nat, m: nat)
    requires a < m && b < m
    ensures a * b <= (m - 1) * (m - 1)
  {
    assert a * b <= a * (m - 1) by { MulLe(b, m - 1, a); }
    assert a * (m - 1) <= (m - 1) * (m - 1) by { MulLe(a, m - 1, m - 1); }
  }

  lemma MulLe(a: int, b: int, c: nat)
    requires a <= b
    ensures a * c <= b * c && c * a <= c * b
  {
    assert 0 <= (b - a) * c;
  }

  lemma DivBounds(a: int, d: int)
    requires d > 0
    ensures d * (a / d) <= a < d * (a / d) + d
  {
  }

  /** a / d is the largest q with d * q <= a. */
  lemma DivLargest(a: int, d: int, q: int)
    requires d > 0
    ensures d * q <= a <==> q <= a / d
  {
    DivBounds(a, d);
    if q <= a / d {
      MulLe(q, a / d, d);
    } else {
      MulLe(a / d + 1, q, d);
      assert d * (a / d + 1) == d * (a / d) + d;
    }
  }

  /** No 64-bit intermediate of either conversion overflows, for any 32-bit arguments. */
  lemma ConversionsFit(clk: nat, ns: nat, loops: nat)
    requires 0 < clk < U32 && ns < U32 && loops < U32
    ensures clk * ns + 999_999_999 < U64
    ensures loops * 2 * GIGA + clk / 2 < U64
    ensures 1 <= NsToMaxLoops(clk, ns) <= MAX_LOOPS
    ensures LoopsToNs(clk, loops) < U32
  {
    MulBounds(clk, ns, U32);
  }

  /** What NsToMaxLoops rounds: whole loops covering the time, with less than two cycles
      to spare, as long as the clamp does not bite. */
  lemma LoopsCover(clk: nat, ns: nat)
    requires NsToMaxLoops(clk, ns) < MAX_LOOPS && clk > 0 && ns > 0
    ensures clk * ns <= NsToMaxLoops(clk, ns) * 2 * GIGA < clk * ns + 2 * GIGA
  {
    MulLe(1, ns, clk);
    var cycles := CyclesFor(clk, ns);
    DivBounds(clk * ns + 999_999_999, GIGA);
    assert cycles >= 1;
  }

  /** Nanoseconds to loops and back: at least the input, and more by at most one loop
      and half a nanosecond of rounding. */
  lemma LoopRoundTrip(clk: nat, ns: nat)
    requires 0 < clk < U32 && 0 < ns < U32 && NsToMaxLoops(clk, ns) < MAX_LOOPS
    ensures var back := LoopsToNs(clk, NsToMaxLoops(clk, ns));
            ns <= back && (back - ns) * clk <= 2 * GIGA + clk / 2
  {
    LoopsCover(clk, ns);
    var loops := NsToMaxLoops(clk, ns);
    var a := loops * 2 * GIGA + clk / 2;
    DivLargest(a, clk, ns);
    DivBounds(a, clk);
    var q := a / clk;
    var back := LoopsToNs(clk, loops);
    MulLe(back, q, clk);
    assert (back - ns) * clk == clk * back - clk * ns;
  }

  // ----- calibration and classification -----

  /** record_sync_measurement_ns: the SWIM clock from a 128-clock pulse. */
  function TswimOf(lowNs: nat): nat {
    (lowNs + SYNC_CLOCKS / 2) / SYNC_CLOCKS
  }

  predicate SyncAccepted(lowNs: nat) {
    SYNC_MIN_US <= NsToUs(lowNs) <= SYNC_MAX_US
  }

  lemma AcceptedTswim(lowNs: nat)
    requires SyncAccepted(lowNs)
    ensures 55 <= TswimOf(lowNs) <= 2344
    ensures 128 * TswimOf(lowNs) - 64 <= lowNs <= 128 * TswimOf(lowNs) + 63
  {
  }

  datatype Verdict = Unreadable | Read(bit: bool)

  /** classify_low_width_ns at low speed. */
  function Classify(tswim: nat, lowNs: nat): Verdict {
    if lowNs == 0 || tswim == 0 then Unreadable
    else
      var clocks := (lowNs + tswim / 2) / tswim;
      if clocks <= ONE_MAX_LOW_CLOCKS then Read(true)
      else if clocks >= ZERO_MIN_LOW_CLOCKS then Read(false)
      else Unreadable
  }

  /** Where the line between the two lies, exactly. */
  lemma ClassifyExactly(tswim: nat, lowNs: nat)
    requires tswim > 0 && lowNs > 0
    ensures Classify(tswim, lowNs) == Read(lowNs + tswim / 2 < 9 * tswim)
  {
    DivLargest(lowNs + tswim / 2, tswim, 9);
  }

  /** The decoder's threshold, as every multi-bit receive path computes it. */
  function Threshold(clk: nat, tswim: nat): nat {
    NsToMaxLoops(clk, tswim * ONE_MAX_LOW_CLOCKS)
  }

  /** A low of `ns` nanoseconds is seen as `low` clocks: the edges fall anywhere within a
      clock. */
  ghost predicate SeenAs(clk: nat, ns: real, low: nat) {
    (low as real - 1.0) * 1_000_000_000.0 <= ns * clk as real <= (low as real + 1.0) * 1_000_000_000.0
  }

  lemma RealDivide(a: real, b: real, m: real, c: real, ac: real, bc: real, mc: real)
    requires c > 0.0 && ac == a * c && bc == b * c && mc == m * c && ac <= bc + mc
    ensures a <= b + m
  {
    assert (b + m - a) * c >= 0.0;
  }

  /** A width is measured to within -20.5 and +10.5 ns. */
  lemma MeasuredWithin(clk: nat, ns: real, low: nat)
    requires 100_000_000 <= clk < U32 && 0.0 <= ns <= 1_000_000_000.0 && SeenAs(clk, ns, low)
    ensures ns - 20.5 <= LoopsToNs(clk, low / 2) as real <= ns + 10.5
  {
    var a := low / 2 * 2 * GIGA + clk / 2;
    DivBounds(a, clk);
    Bracket(clk, ns, low, a, a / clk);
  }

  lemma Bracket(clk: nat, ns: real, low: nat, a: int, q: int)
    requires 100_000_000 <= clk && SeenAs(clk, ns, low)
    requires a == low / 2 * 2 * GIGA + clk / 2 && clk * q <= a < clk * q + clk
    ensures ns - 20.5 <= q as real <= ns + 10.5
  {
    var c := clk as real;
    var qc := q as real * c;
    var nc := ns * c;
    assert (clk * q) as real == qc;
    BracketScaled(clk, low, clk * q, qc, nc);
    RealDivide(q as real, ns, 10.5, c, qc, nc, 10.5 * c);
    RealDivide(ns, q as real, 20.5, c, nc, qc, 20.5 * c);
  }

  lemma BracketScaled(clk: nat, low: nat, p: int, qc: real, nc: real)
    requires 100_000_000 <= clk && p as real == qc
    requires p <= low / 2 * 2 * GIGA + clk / 2 < p + clk
    requires (low as real - 1.0) * 1_000_000_000.0 <= nc <= (low as real + 1.0) * 1_000_000_000.0
    ensures qc <= nc + 10.5 * clk as real && nc <= qc + 20.5 * clk as real
  {
    var e, h := low / 2 * 2, clk / 2;
    RealBracket(low, e, h, p, low as real, e as real, h as real, clk, clk as real, qc, nc);
  }

  lemma RealBracket(low: int, e: int, h: int, p: int, l: real, er: real, hr: real, clk: int,
      c: real, qc: real, nc: real)
    requires low - 1 <= e <= low && clk - 1 <= 2 * h <= clk && e * GIGA + h - clk + 1 <= p <= e * GIGA + h
    requires l == low as real && er == e as real && hr == h as real && c == clk as real && qc == p as real
    requires 100_000_000 <= clk
    requires (l - 1.0) * 1_000_000_000.0 <= nc <= (l + 1.0) * 1_000_000_000.0
    ensures qc <= nc + 10.5 * c && nc <= qc + 20.5 * c
  {
    assert l - 1.0 <= er <= l && c - 1.0 <= 2.0 * hr <= c && c >= 100_000_000.0;
    assert er * 1_000_000_000.0 + hr - c + 1.0 <= qc <= er * 1_000_000_000.0 + hr;
  }
}

/**
From the synchronization pulse to the bits: what calibration promises for a target
whose clock has one period while it calibrates and another while it talks.
*/
module Calibration {
  import opened BitVectors
  import opened Timing

  /** loops_used, as swim_pio_rx_get_width computes it from the captured word. */
  function LoopsUsed(low: nat, budget: nat): nat {
    if low / 2 <= budget then low / 2 else 0
  }

  function CapturedNs(clk: nat, budget: nat, low: nat): nat
    requires clk > 0
  {
    LoopsToNs(clk, LoopsUsed(low, budget))
  }

  /** The sync pulse, 128 target periods long, was captured as `low` clocks and accepted. */
  ghost predicate Calibrates(clk: nat, period: real, low: nat, tswim: nat) {
    && 100_000_000 <= clk <= 4_000_000_000 && period > 0.0
    && SeenAs(clk, 128.0 * period, low)
    && var lowNs := CapturedNs(clk, NsToMaxLoops(clk, 300_000), low);
       SyncAccepted(lowNs) && tswim == TswimOf(lowNs)
  }

  /** The nominal case: an 8 MHz target seen by a 125 MHz receiver calibrates to 125 ns. */
  lemma NominalTarget()
    ensures Calibrates(125_000_000, 125.0, 2000, 125)
  {
    assert NsToMaxLoops(125_000_000, 300_000) == 18_750;
    assert CapturedNs(125_000_000, 18_750, 2000) == 16_000;
    assert TswimOf(16_000) == 125 && NsToUs(16_000) == 16;
  }

  /** The derived clock is within 0.66 ns of the true period. */
  lemma CalibratedClock(clk: nat, period: real, low: nat, tswim: nat)
    requires Calibrates(clk, period, low, tswim)
    ensures period - 0.66 <= tswim as real <= period + 0.6
    ensures 55 <= tswim <= 2344 && 54.0 <= period <= 2345.0
  {
    var lowNs := CapturedNs(clk, NsToMaxLoops(clk, 300_000), low);
    AcceptedTswim(lowNs);
    DivLargest(clk / 2, clk, 1);
    assert low / 2 <= NsToMaxLoops(clk, 300_000);
    SyncShort(clk, 128.0 * period, low);
    MeasuredWithin(clk, 128.0 * period, low);
  }

  /** An accepted measurement bounds the time it measured. */
  lemma SyncShort(clk: nat, ns: real, low: nat)
    requires 100_000_000 <= clk < U32 && SeenAs(clk, ns, low)
    requires SyncAccepted(LoopsToNs(clk, low / 2))
    ensures ns <= 1_000_000_000.0
  {
    var a := low / 2 * 2 * GIGA + clk / 2;
    DivBounds(a, clk);
    DivLargest(a, clk, 300_001);
    Bracket(clk, ns, low, a, a / clk);
  }

  /** The low time of a bit at period `q`: two clocks for a one, twenty for a zero. */
  function LowTime(bit: bool, q: real): real {
    if bit then 2.0 * q else 20.0 * q
  }

  /** And the high time after it. */
  function HighTime(bit: bool, q: real): real {
    if bit then 20.0 * q else 2.0 * q
  }

  /** Whatever the period does between a half and four times the calibrated one, every
      bit that is captured is classified as the bit it is. */
  lemma CalibratedBits(clk: nat, period: real, syncLow: nat, tswim: nat, q: real, bit: bool, low: nat)
    requires Calibrates(clk, period, syncLow, tswim)
    requires period / 2.0 <= q <= 4.0 * period && SeenAs(clk, LowTime(bit, q), low)
    ensures Classify(tswim, LoopsToNs(clk, low / 2)) == Read(bit)
  {
    CalibratedClock(clk, period, syncLow, tswim);
    MeasuredWithin(clk, LowTime(bit, q), low);
    ClassifyExactly(tswim, LoopsToNs(clk, low / 2));
  }

  /** A receive with a loop budget: the bit, or nothing when the low outlasts the budget.
      A long zero is never taken for a one. */
  lemma ReceivedBits(clk: nat, period: real, syncLow: nat, tswim: nat, q: real, bit: bool,
      low: nat, budget: nat)
    requires Calibrates(clk, period, syncLow, tswim)
    requires period / 2.0 <= q <= 4.0 * period && SeenAs(clk, LowTime(bit, q), low)
    ensures Classify(tswim, CapturedNs(clk, budget, low))
         == if low / 2 <= budget then Read(bit) else Unreadable
  {
    CalibratedBits(clk, period, syncLow, tswim, q, bit, low);
    DivLargest(clk / 2, clk, 1);
  }

  /** The budget of the ACK capture, 64 SWIM clocks. */
  function AckBudget(clk: nat, tswim: nat): nat {
    NsToMaxLoops(clk, 64 * tswim)
  }

  /** c is clk in cycles per nanosecond, in which products with times stay small. */
  lemma ScaledCover(clk: nat, ns: nat)
    requires 100_000_000 <= clk < U32 && 0 < ns <= 1_000_000
    ensures var loops := NsToMaxLoops(clk, ns);
            clk * ns <= loops * 2 * GIGA < clk * ns + 2 * GIGA
  {
    MulLe(ns, 1_000_000, clk);
    DivBounds(clk * ns + 999_999_999, GIGA);
    LoopsCover(clk, ns);
  }

  /** low / 2 against the loops for `budgetNs`: a low safely shorter than the budget
      fits, and one safely longer does not. */
  lemma FitsBudget(clk: nat, ns: real, low: nat, budgetNs: nat)
    requires 100_000_000 <= clk < U32 && 0 < budgetNs <= 1_000_000 && SeenAs(clk, ns, low)
    ensures ns + 10.0 <= budgetNs as real ==> low / 2 <= NsToMaxLoops(clk, budgetNs)
    ensures ns >= budgetNs as real + 60.0 ==> low / 2 > NsToMaxLoops(clk, budgetNs)
  {
    ScaledCover(clk, budgetNs);
    var c, b := clk as real, budgetNs as real;
    ProductCast(clk, budgetNs);
    Margins(ns, b, c, ns * c, b * c);
    LoopsFit(low, NsToMaxLoops(clk, budgetNs), clk * budgetNs, low as real, NsToMaxLoops(clk, budgetNs) as real, b * c, c, ns * c);
  }

  lemma ProductCast(a: int, b: int)
    ensures (a * b) as real == (b as real) * (a as real)
  {
  }

  lemma Margins(ns: real, b: real, c: real, nc: real, bc: real)
    requires c >= 0.0 && nc == ns * c && bc == b * c
    ensures ns + 10.0 <= b ==> nc + 10.0 * c <= bc
    ensures ns >= b + 60.0 ==> nc >= bc + 60.0 * c
  {
    if ns + 10.0 <= b {
      RealMulLe(ns + 10.0, b, c);
    }
    if ns >= b + 60.0 {
      RealMulLe(b + 60.0, ns, c);
    }
  }

  lemma LoopsFit(low: nat, loops: nat, budget: int, l: real, lr: real, br: real, c: real, nc: real)
    requires l == low as real && lr == loops as real && br == budget as real && c >= 100_000_000.0
    requires budget <= loops * 2 * GIGA < budget + 2 * GIGA
    requires (l - 1.0) * 1_000_000_000.0 <= nc <= (l + 1.0) * 1_000_000_000.0
    ensures nc + 10.0 * c <= br ==> low / 2 <= loops
    ensures nc >= br + 60.0 * c ==> low / 2 > loops
  {
    assert br <= lr * 2_000_000_000.0 < br + 2_000_000_000.0;
    if nc + 10.0 * c <= br {
      assert l <= 2.0 * lr;
      assert low <= 2 * loops;
    }
    if nc >= br + 60.0 * c {
      assert l >= 2.0 * lr + 2.0;
      assert low >= 2 * loops + 2;
    }
  }

  lemma RealMulLe(a: real, b: real, c: real)
    requires a <= b && c >= 0.0
    ensures a * c <= b * c
  {
    assert (b - a) * c >= 0.0;
  }

  /** Through the ACK capture a one is always read, and a zero is read as long as the
      period has not grown to more than 3.15 times the calibrated one. */
  lemma AckReads(clk: nat, period: real, syncLow: nat, tswim: nat, q: real, bit: bool, low: nat)
    requires Calibrates(clk, period, syncLow, tswim)
    requires period / 2.0 <= q <= (if bit then 4.0 else 3.15) * period && SeenAs(clk, LowTime(bit, q), low)
    ensures Classify(tswim, CapturedNs(clk, AckBudget(clk, tswim), low)) == Read(bit)
  {
    CalibratedClock(clk, period, syncLow, tswim);
    FitsBudget(clk, LowTime(bit, q), low, 64 * tswim);
    ReceivedBits(clk, period, syncLow, tswim, q, bit, low, AckBudget(clk, tswim));
  }

  /** From 3.3 times the calibrated period on it is not: every NACK outlasts the 64-clock
      budget and reads as no answer. */
  lemma SlowNackTimesOut(clk: nat, period: real, syncLow: nat, tswim: nat, q: real, low: nat)
    requires Calibrates(clk, period, syncLow, tswim)
    requires q >= 3.3 * period && SeenAs(clk, LowTime(false, q), low)
    ensures Classify(tswim, CapturedNs(clk, AckBudget(clk, tswim), low)) == Unreadable
  {
    CalibratedClock(clk, period, syncLow, tswim);
    FitsBudget(clk, LowTime(false, q), low, 64 * tswim);
    DivLargest(clk / 2, clk, 1);
  }

  /** The one-word decoder with the firmware's threshold decides every bit rightly while
      the period stays between a half and 3.85 times the calibrated one. */
  lemma DecoderReads(clk: nat, period: real, syncLow: nat, tswim: nat, q: real, bit: bool, low: nat)
    requires Calibrates(clk, period, syncLow, tswim)
    requires period / 2.0 <= q <= 3.85 * period && SeenAs(clk, LowTime(bit, q), low)
    ensures low / 2 <= Threshold(clk, tswim) <==> bit
  {
    CalibratedClock(clk, period, syncLow, tswim);
    FitsBudget(clk, LowTime(bit, q), low, tswim * ONE_MAX_LOW_CLOCKS);
  }

  /** From 4.6 times the calibrated period on it does not: every one is decoded as a zero. */
  lemma SlowOneMisread(clk: nat, period: real, syncLow: nat, tswim: nat, q: real, low: nat)
    requires Calibrates(clk, period, syncLow, tswim)
    requires q >= 4.6 * period && SeenAs(clk, LowTime(true, q), low)
    ensures low / 2 > Threshold(clk, tswim)
  {
    CalibratedClock(clk, period, syncLow, tswim);
    FitsBudget(clk, LowTime(true, q), low, tswim * ONE_MAX_LOW_CLOCKS);
  }

  /** Every low and every gap lasts some clocks, and no zero ends just past the threshold,
      where the decoder is slowest. */
  lemma BitSpaced(clk: nat, period: real, syncLow: nat, tswim: nat, q: real, bit: bool,
      low: nat, high: nat)
    requires Calibrates(clk, period, syncLow, tswim) && period / 2.0 <= q <= 3.85 * period
    requires SeenAs(clk, LowTime(bit, q), low) && SeenAs(clk, HighTime(bit, q), high)
    ensures low >= 5 && high >= if bit then 7 else 5
    ensures !bit ==> low > 2 * Threshold(clk, tswim) + 2
  {
    CalibratedClock(clk, period, syncLow, tswim);
    LastsClocks(clk, LowTime(bit, q), low);
    LastsClocks(clk, HighTime(bit, q), high);
    if !bit {
      var delay := Cycle(clk, LowTime(bit, q), low);
      FitsBudget(clk, LowTime(bit, q) - delay, low - 1, tswim * ONE_MAX_LOW_CLOCKS);
    }
  }

  lemma LastsClocks(clk: nat, ns: real, n: nat)
    requires clk >= 100_000_000 && SeenAs(clk, ns, n)
    ensures ns >= 54.0 ==> n >= 5
    ensures ns >= 90.0 ==> n >= 8
  {
    AtLeastClocks(clk as real, ns, 54.0, ns * clk as real, n, 5);
    AtLeastClocks(clk as real, ns, 90.0, ns * clk as real, n, 8);
  }

  lemma AtLeastClocks(c: real, ns: real, least: real, nc: real, n: nat, k: nat)
    requires c >= 100_000_000.0 && nc == ns * c && nc <= (n as real + 1.0) * 1_000_000_000.0
    requires 0.0 <= least && k as real < least / 10.0 && least / 10.0 <= k as real + 1.0
    ensures ns >= least ==> n >= k
  {
    if ns >= least {
      RealMulLe(least, ns, c);
      RealMulLe(100_000_000.0, c, least);
      assert n as real + 1.0 >= least / 10.0;
    }
  }

  /** A clock later, one clock less is seen. */
  lemma Cycle(clk: nat, ns: real, low: nat) returns (delay: real)
    requires clk >= 100_000_000 && SeenAs(clk, ns, low) && low >= 1
    ensures 0.0 <= delay <= 10.0 && SeenAs(clk, ns - delay, low - 1)
  {
    var c := clk as real;
    delay := 1_000_000_000.0 / c;
    Distributes(ns, delay, c);
    RealDivide(delay, 10.0, 0.0, c, 1_000_000_000.0, 10.0 * c, 0.0);
  }

  lemma Distributes(a: real, b: real, c: real)
    ensures (a - b) * c == a * c - b * c
  {
  }

  /** The decoder against capture plus classification, for every low and every budget. What
      the decoder calls a one, the C code calls a one exactly if the capture has a sample of it
      and it fits the budget; a low of one clock the C code cannot read. For the rest the two
      part exactly when the decoder says zero and the width is still below eight and a half
      SWIM clocks, and then the width is at least eight. */
  lemma DecoderRefinesClassify(clk: nat, tswim: nat, budget: nat, low: nat)
    requires 100_000_000 <= clk <= 4_000_000_000 && 55 <= tswim <= 2344
    ensures var ns := CapturedNs(clk, budget, low);
            var seen := low >= 2 && low / 2 <= budget;
            var one := low / 2 <= Threshold(clk, tswim);
            && (one ==> (Classify(tswim, ns) == Read(true) <==> seen))
            && (!seen ==> Classify(tswim, ns) == Unreadable)
            && (seen ==> (Classify(tswim, ns) != Read(one) <==> !one && ns + tswim / 2 < 9 * tswim))
            && (seen && !one ==> ns >= 8 * tswim)
  {
    if low >= 2 && low / 2 <= budget {
      SeenRefines(clk, tswim, low);
    } else {
      DivLargest(clk / 2, clk, 1);
    }
  }

  lemma SeenRefines(clk: nat, tswim: nat, low: nat)
    requires 100_000_000 <= clk <= 4_000_000_000 && 55 <= tswim <= 2344 && low >= 2
    ensures var ns := LoopsToNs(clk, low / 2);
            var one := low / 2 <= Threshold(clk, tswim);
            && (one ==> Classify(tswim, ns) == Read(true))
            && (Classify(tswim, ns) != Read(one) <==> !one && ns + tswim / 2 < 9 * tswim)
            && (!one ==> ns >= 8 * tswim)
  {
    var k := low / 2;
    ScaledCover(clk, tswim * 8);
    var a := k * 2 * GIGA + clk / 2;
    DivLargest(a, clk, 1);
    DivLargest(a, clk, 8 * tswim);
    DivLargest(a, clk, 8 * tswim + 21);
    assert clk * (8 * tswim + 21) == clk * (tswim * 8) + 21 * clk;
    ClassifyExactly(tswim, LoopsToNs(clk, k));
  }

  /** The band is not empty: a 4.2 us low against a 500 ns clock at 125 MHz. */
  lemma DisagreementExists()
    ensures var ns := LoopsToNs(125_000_000, 525 / 2);
            Classify(500, ns) == Read(true) && 525 / 2 > Threshold(125_000_000, 500)
  {
  }
}
