/**
From frame to line to frame: the waveform the TX engine emits for a frame, replayed to
the decode program at the firmware's own threshold.
*/
module Replay {
  import opened BitVectors
  import opened Pio
  import opened Watching
  import opened Waveform
  import opened TxEngine
  import opened TxFrame
  import opened RxDecode
  import opened Timing
  import opened Calibration

  /** The line a receiver sees, `d` system clocks for each TX tick; true is high. */
  function Stretch(d: nat, wire: seq<bool>): seq<bool> {
    if wire == [] then []
    else Stretch(d, wire[..|wire| - 1]) + Line(!wire[|wire| - 1], d)
  }

  lemma {:induction false} StretchAppend(d: nat, a: seq<bool>, b: seq<bool>)
    ensures Stretch(d, a + b) == Stretch(d, a) + Stretch(d, b)
    decreases |b|
  {
    if b == [] {
      assert a + b == a;
    } else {
      assert (a + b)[..|a + b| - 1] == a + b[..|b| - 1];
      StretchAppend(d, a, b[..|b| - 1]);
    }
  }

  lemma LineAdd(level: bool, m: nat, n: nat)
    ensures Line(level, m) + Line(level, n) == Line(level, m + n)
  {
  }

  lemma {:induction false} StretchLevel(d: nat, low: bool, n: nat)
    ensures Stretch(d, Level(low, n)) == Line(!low, n * d)
    decreases n
  {
    if n > 0 {
      assert Level(low, n)[..n - 1] == Level(low, n - 1);
      StretchLevel(d, low, n - 1);
      assert (n - 1) * d + d == n * d;
      LineAdd(!low, (n - 1) * d, d);
    }
  }

  lemma {:induction false} TraceSnoc(pulses: seq<Pulse>, p: Pulse)
    ensures Trace(pulses + [p]) == Trace(pulses) + (Line(false, p.low) + Line(true, p.high))
    decreases |pulses|
  {
    if pulses != [] {
      assert (pulses + [p])[1..] == pulses[1..] + [p];
      TraceSnoc(pulses[1..], p);
    }
  }

  // ----- frames the encoder takes -----

  predicate FrameFits(gap: bool, count: nat) {
    1 <= count <= (if gap then 15 else 16)
  }

  function Frame(gap: bool, bits: seq<bool>): seq<Segment> {
    FrameSegments(Speed.Low, gap, bits)
  }

  /** The segments of a frame by position. */
  lemma {:induction false} FrameAt(gap: bool, bits: seq<bool>, i: nat)
    requires i < |bits|
    ensures var l := |Lead(Speed.Low, gap)|;
            Frame(gap, bits)[l + 2 * i] == LowSegment(Speed.Low, bits[i])
            && Frame(gap, bits)[l + 2 * i + 1] == HighSegment(Speed.Low, bits[i])
    ensures gap ==> Frame(gap, bits)[0] == Lead(Speed.Low, gap)[0]
    decreases |bits|
  {
    var n := |bits| - 1;
    if i < n {
      FrameAt(gap, bits[..n], i);
    } else if gap {
      FrameLead(gap, bits[..n]);
    }
  }

  lemma {:induction false} FrameLead(gap: bool, bits: seq<bool>)
    requires gap
    ensures Frame(gap, bits)[0] == Lead(Speed.Low, gap)[0]
    decreases |bits|
  {
    if bits != [] {
      FrameLead(gap, bits[..|bits| - 1]);
    }
  }

  predicate FrameSegment(s: Segment) {
    Encodable(s) && s.ticks <= 176
  }

  lemma {:induction false} FrameEncodable(gap: bool, bits: seq<bool>)
    ensures forall i :: 0 <= i < |Frame(gap, bits)| ==> FrameSegment(Frame(gap, bits)[i])
    decreases |bits|
  {
    if bits != [] {
      var front := Frame(gap, bits[..|bits| - 1]);
      var bit := bits[|bits| - 1];
      FrameEncodable(gap, bits[..|bits| - 1]);
      assert Frame(gap, bits) == front + [LowSegment(Speed.Low, bit), HighSegment(Speed.Low, bit)];
    }
  }

  lemma {:induction false} TotalBound(segs: seq<Segment>, m: nat)
    requires forall i :: 0 <= i < |segs| ==> segs[i].ticks <= m
    ensures TotalTicks(segs) <= m * |segs|
  {
    if segs != [] {
      TotalBound(segs[..|segs| - 1], m);
      assert m * |segs| == m * (|segs| - 1) + m;
    }
  }

  /** The encoder accepts a frame if and only if it has at most 15 bits after a gap, or
      16 without one: the 16-bit frames that the PHY lets through are refused here. */
  lemma {:induction false} FrameAccepted(gap: bool, bits: seq<bool>)
    requires |bits| >= 1
    ensures Accepted(Frame(gap, bits)) <==> FrameFits(gap, |bits|)
  {
    FrameEncodable(gap, bits);
    assert forall i :: 0 <= i < |Frame(gap, bits)| ==> Frame(gap, bits)[i].ticks <= 176;
    TotalBound(Frame(gap, bits), 176);
  }

  // ----- the emitted waveform, as the receiver sees it -----

  function BitPulse(d: nat, bit: bool): Pulse {
    Pulse(LowClocks(Speed.Low, bit) * TICKS_PER_CLOCK * d, HighClocks(Speed.Low, bit) * TICKS_PER_CLOCK * d)
  }

  function BitPulses(d: nat, bits: seq<bool>): (p: seq<Pulse>)
    ensures |p| == |bits|
    ensures forall i :: 0 <= i < |p| ==> p[i] == BitPulse(d, bits[i])
  {
    seq(|bits|, i requires 0 <= i < |bits| => BitPulse(d, bits[i]))
  }

  /** At a SWIM clock of 8 `d` system clocks, the times are those UM0470 gives a bit. */
  lemma BitTimes(d: nat, bit: bool)
    ensures BitPulse(d, bit).low as real == LowTime(bit, 8.0 * d as real)
    ensures BitPulse(d, bit).high as real == HighTime(bit, 8.0 * d as real)
    ensures BitPulse(d, bit).low + BitPulse(d, bit).high == 176 * d
  {
  }

  /** The last release of a frame is one tick shorter, before the line stays released. */
  lemma LastTimes(d: nat, bit: bool)
    ensures LastHigh(d, bit, 0) as real == HighTime(bit, 8.0 * d as real) - d as real
  {
  }

  /** Idle ticks before the first bit. */
  function IdleTicks(gap: bool): nat {
    if gap then 182 else 6
  }

  /** The first `k` holds of the requested waveform, on the receiver's line. */
  function Drawn(d: nat, segs: seq<Segment>, k: nat): seq<bool>
    requires Loadable(segs) && k <= |segs| + 1
  {
    if k == 0 then []
    else
      assert k > 1 ==> Encodable(segs[k - 2]);
      Drawn(d, segs, k - 1) + Line(!LevelOf(segs, k - 1), Nominal(segs, k - 1) * d)
  }

  lemma {:induction false} DrawnIsIdeal(d: nat, segs: seq<Segment>, k: nat)
    requires Loadable(segs) && k <= |segs| + 1
    ensures Stretch(d, Ideal(segs, k)) == Drawn(d, segs, k)
    decreases k
  {
    if k > 0 {
      assert k > 1 ==> Encodable(segs[k - 2]);
      DrawnIsIdeal(d, segs, k - 1);
      StretchAppend(d, Ideal(segs, k - 1), Level(LevelOf(segs, k - 1), Nominal(segs, k - 1)));
      StretchLevel(d, LevelOf(segs, k - 1), Nominal(segs, k - 1));
    }
  }

  lemma LeadLine(d: nat, gap: bool, bits: seq<bool>)
    requires FrameFits(gap, |bits|)
    ensures Loadable(Frame(gap, bits))
    ensures Drawn(d, Frame(gap, bits), 1 + |Lead(Speed.Low, gap)|) == Line(true, IdleTicks(gap) * d)
  {
    var f := Frame(gap, bits);
    FrameEncodable(gap, bits);
    assert Drawn(d, f, 1) == [] + Line(true, 6 * d) == Line(true, 6 * d);
    if gap {
      FrameAt(gap, bits, 0);
      assert Nominal(f, 1) == 176;
      LineAdd(true, 6 * d, 176 * d);
    }
  }

  /** The line up to bit `j`. */
  function Upto(d: nat, gap: bool, bits: seq<bool>, j: nat): seq<bool>
    requires Loadable(Frame(gap, bits)) && j <= |bits|
  {
    Drawn(d, Frame(gap, bits), 1 + |Lead(Speed.Low, gap)| + 2 * j)
  }

  /** All bits but the last, from left to right. */
  lemma {:induction false} BitsLine(d: nat, gap: bool, bits: seq<bool>, j: nat)
    requires FrameFits(gap, |bits|) && j < |bits| && Loadable(Frame(gap, bits))
    ensures Upto(d, gap, bits, j) == Line(true, IdleTicks(gap) * d) + Trace(BitPulses(d, bits[..j]))
    decreases j
  {
    if j == 0 {
      LeadLine(d, gap, bits);
      assert Trace(BitPulses(d, bits[..0])) == [];
    } else {
      BitsLine(d, gap, bits, j - 1);
      NextBitLine(d, gap, bits, j - 1, Line(true, IdleTicks(gap) * d));
    }
  }

  lemma NextBitLine(d: nat, gap: bool, bits: seq<bool>, j: nat, idle: seq<bool>)
    requires FrameFits(gap, |bits|) && j + 1 < |bits| && Loadable(Frame(gap, bits))
    requires Upto(d, gap, bits, j) == idle + Trace(BitPulses(d, bits[..j]))
    ensures Upto(d, gap, bits, j + 1) == idle + Trace(BitPulses(d, bits[..j + 1]))
  {
    BitLine(d, gap, bits, j);
    BitPulsesSnoc(d, bits, j);
    Reassociate(idle, Trace(BitPulses(d, bits[..j])), PulseOf(d, bits[j]));
  }

  lemma Reassociate(a: seq<bool>, b: seq<bool>, c: seq<bool>)
    ensures (a + b) + c == a + (b + c)
  {
  }

  function PulseOf(d: nat, bit: bool): seq<bool> {
    Line(false, BitPulse(d, bit).low) + Line(true, BitPulse(d, bit).high)
  }

  lemma BitPulsesSnoc(d: nat, bits: seq<bool>, j: nat)
    requires j < |bits|
    ensures Trace(BitPulses(d, bits[..j + 1])) == Trace(BitPulses(d, bits[..j])) + PulseOf(d, bits[j])
  {
    assert BitPulses(d, bits[..j + 1]) == BitPulses(d, bits[..j]) + [BitPulse(d, bits[j])];
    TraceSnoc(BitPulses(d, bits[..j]), BitPulse(d, bits[j]));
  }

  lemma {:induction false} BitPair(gap: bool, bits: seq<bool>, j: nat, segs: seq<Segment>, l: nat)
    requires j < |bits| && segs == Frame(gap, bits) && l == |Lead(Speed.Low, gap)|
    ensures |segs| == l + 2 * |bits|
    ensures segs[l + 2 * j] == LowSegment(Speed.Low, bits[j]) && segs[l + 2 * j + 1] == HighSegment(Speed.Low, bits[j])
  {
    FrameAt(gap, bits, j);
  }

  lemma TwoHolds(d: nat, segs: seq<Segment>, k: nat, low: nat, high: nat)
    requires Loadable(segs) && 1 <= k && k + 1 <= |segs|
    requires LevelOf(segs, k) && !LevelOf(segs, k + 1)
    requires Nominal(segs, k) == low && Nominal(segs, k + 1) == high
    ensures Drawn(d, segs, k + 2) == Drawn(d, segs, k) + (Line(false, low * d) + Line(true, high * d))
  {
    assert Drawn(d, segs, k + 1) == Drawn(d, segs, k) + Line(false, low * d);
  }

  /** One bit that another follows. */
  lemma {:induction false} BitLine(d: nat, gap: bool, bits: seq<bool>, j: nat)
    requires j + 1 < |bits| && Loadable(Frame(gap, bits))
    ensures Upto(d, gap, bits, j + 1) == Upto(d, gap, bits, j) + PulseOf(d, bits[j])
  {
    var segs, l := Frame(gap, bits), |Lead(Speed.Low, gap)|;
    var k, bit := 1 + l + 2 * j, bits[j];
    BitPair(gap, bits, j, segs, l);
    BitDrawn(d, segs, k, bit);
  }

  lemma BitDrawn(d: nat, segs: seq<Segment>, k: nat, bit: bool)
    requires Loadable(segs) && 1 <= k && k + 1 < |segs|
    requires segs[k - 1] == LowSegment(Speed.Low, bit) && segs[k] == HighSegment(Speed.Low, bit)
    ensures Drawn(d, segs, k + 2) == Drawn(d, segs, k) + PulseOf(d, bit)
  {
    var low, high := LowTicks(bit), HighTicks(bit);
    BitHolds(segs, k, bit);
    TwoHolds(d, segs, k, low, high);
  }

  function LowTicks(bit: bool): nat {
    LowClocks(Speed.Low, bit) * TICKS_PER_CLOCK
  }

  function HighTicks(bit: bool): (n: nat)
    ensures n >= 1
  {
    HighClocks(Speed.Low, bit) * TICKS_PER_CLOCK
  }

  /** The two holds of a bit; the segment before the sentinel is one tick short. */
  lemma BitHolds(segs: seq<Segment>, k: nat, bit: bool)
    requires 1 <= k && k + 1 <= |segs|
    requires segs[k - 1] == LowSegment(Speed.Low, bit) && segs[k] == HighSegment(Speed.Low, bit)
    ensures LevelOf(segs, k) && !LevelOf(segs, k + 1)
    ensures Nominal(segs, k) == LowTicks(bit)
    ensures Nominal(segs, k + 1) == HighTicks(bit) - if k + 1 == |segs| then 1 else 0
  {
  }

  /** High clocks of the last bit: one tick short, and then the line stays released. */
  function LastHigh(d: nat, bit: bool, m: nat): nat {
    (HighClocks(Speed.Low, bit) * TICKS_PER_CLOCK - 1) * d + m * d
  }

  function LastPulse(d: nat, bits: seq<bool>, m: nat): Pulse
    requires |bits| >= 1
  {
    Pulse(BitPulse(d, bits[|bits| - 1]).low, LastHigh(d, bits[|bits| - 1], m))
  }

  function Shape(p: Pulse): seq<bool> {
    Line(false, p.low) + Line(true, p.high)
  }

  lemma {:induction false} LastHolds(d: nat, gap: bool, bits: seq<bool>)
    requires FrameFits(gap, |bits|) && Loadable(Frame(gap, bits))
    ensures Drawn(d, Frame(gap, bits), |Frame(gap, bits)| + 1)
         == Upto(d, gap, bits, |bits| - 1)
            + (Line(false, BitPulse(d, bits[|bits| - 1]).low) + Line(true, LastHigh(d, bits[|bits| - 1], 0)))
  {
    var n := |bits| - 1;
    var segs, l := Frame(gap, bits), |Lead(Speed.Low, gap)|;
    BitPair(gap, bits, n, segs, l);
    LastDrawn(d, segs, 1 + l + 2 * n, bits[n]);
  }

  lemma LastDrawn(d: nat, segs: seq<Segment>, k: nat, bit: bool)
    requires Loadable(segs) && 1 <= k && k + 1 == |segs|
    requires segs[k - 1] == LowSegment(Speed.Low, bit) && segs[k] == HighSegment(Speed.Low, bit)
    ensures Drawn(d, segs, k + 2)
         == Drawn(d, segs, k) + (Line(false, BitPulse(d, bit).low) + Line(true, LastHigh(d, bit, 0)))
  {
    var low, high := LowTicks(bit), HighTicks(bit) - 1;
    BitHolds(segs, k, bit);
    TwoHolds(d, segs, k, low, high);
  }

  lemma LastGrows(a: seq<bool>, low: seq<bool>, m: nat, n: nat)
    ensures (a + (low + Line(true, m))) + Line(true, n) == a + (low + Line(true, m + n))
  {
    LineAdd(true, m, n);
  }

  /** The last bit, and `m` ticks of released line. */
  lemma LastLine(d: nat, gap: bool, bits: seq<bool>, m: nat)
    requires FrameFits(gap, |bits|) && Loadable(Frame(gap, bits))
    ensures Stretch(d, Ideal(Frame(gap, bits), |Frame(gap, bits)| + 1) + Level(false, m))
         == Upto(d, gap, bits, |bits| - 1) + Shape(LastPulse(d, bits, m))
  {
    LastHolds(d, gap, bits);
    DrawnIsIdeal(d, Frame(gap, bits), |Frame(gap, bits)| + 1);
    StretchAppend(d, Ideal(Frame(gap, bits), |Frame(gap, bits)| + 1), Level(false, m));
    StretchLevel(d, false, m);
    LastGrows(Upto(d, gap, bits, |bits| - 1), Line(false, BitPulse(d, bits[|bits| - 1]).low),
              LastHigh(d, bits[|bits| - 1], 0), m * d);
  }

  /** The pulses of a frame whose last gap runs on for `m` ticks. */
  function FramePulses(d: nat, bits: seq<bool>, m: nat): (p: seq<Pulse>)
    requires |bits| >= 1
    ensures |p| == |bits|
  {
    BitPulses(d, bits[..|bits| - 1]) + [LastPulse(d, bits, m)]
  }

  /** A frame on the line is an idle stretch and one pulse a bit. */
  lemma FrameLine(d: nat, gap: bool, bits: seq<bool>, m: nat)
    requires FrameFits(gap, |bits|)
    ensures Loadable(Frame(gap, bits))
    ensures Stretch(d, Ideal(Frame(gap, bits), |Frame(gap, bits)| + 1) + Level(false, m))
         == Line(true, IdleTicks(gap) * d) + Trace(FramePulses(d, bits, m))
  {
    FrameEncodable(gap, bits);
    LastLine(d, gap, bits, m);
    BitsLine(d, gap, bits, |bits| - 1);
    TraceSnoc(BitPulses(d, bits[..|bits| - 1]), LastPulse(d, bits, m));
    Reassociate(Line(true, IdleTicks(gap) * d), Trace(BitPulses(d, bits[..|bits| - 1])), Shape(LastPulse(d, bits, m)));
  }

  // ----- what the decoder makes of it -----

  /** A threshold between a one's and a zero's samples tells the bits apart, and the
      shortest gap, two SWIM clocks, outlasts the decoder's loop, at every divider. */
  lemma FrameDecodes(d: nat, bits: seq<bool>, m: nat, threshold: Word)
    requires d >= 1 && |bits| >= 1 && 8 * d <= threshold < 80 * d
    ensures Separated(FramePulses(d, bits, m), threshold)
    ensures Bits(FramePulses(d, bits, m), threshold) == bits
  {
    var p := FramePulses(d, bits, m);
    forall i | 0 <= i < |bits|
      ensures p[i].low >= 1 && p[i].high >= 7 && Bit(p[i].low, threshold) == bits[i]
    {
      PulseTells(d, bits, m, threshold, i);
    }
    assert Bits(p, threshold) == bits;
  }

  lemma PulseTells(d: nat, bits: seq<bool>, m: nat, threshold: Word, i: nat)
    requires d >= 1 && i < |bits| && 8 * d <= threshold < 80 * d
    ensures var p := FramePulses(d, bits, m)[i];
            p.low >= 1 && p.high >= 7 && Bit(p.low, threshold) == bits[i]
  {
    PulseTimes(d, bits[i], m);
    assert i < |bits| - 1 ==> FramePulses(d, bits, m)[i] == BitPulse(d, bits[i]);
  }

  lemma PulseTimes(d: nat, bit: bool, m: nat)
    requires d >= 1
    ensures BitPulse(d, bit).low == if bit then 16 * d else 160 * d
    ensures BitPulse(d, bit).high >= 16 * d && LastHigh(d, bit, m) >= 15 * d
  {
    assert m * d >= 0;
  }

  /** System clocks a TX tick, for the tick rate of eight to the SWIM clock. */
  function Divider(clk: nat, tswim: nat): nat
    requires 0 < tswim <= 2344
  {
    DivLargest(TICKS_PER_CLOCK * GIGA, tswim, 1);
    clk / (TICKS_PER_CLOCK * GIGA / tswim)
  }

  /** The firmware's threshold lies there for the integer divider of its own tick rate. */
  lemma ThresholdFits(clk: nat, tswim: nat)
    requires 55 <= tswim <= 2344 && clk < U32
    requires Divider(clk, tswim) >= 1
    ensures 8 * Divider(clk, tswim) <= Threshold(clk, tswim) < 80 * Divider(clk, tswim)
  {
    var hz := 8 * GIGA / tswim;
    DivLargest(8 * GIGA, tswim, 1);
    var d := clk / hz;
    DivBounds(8 * GIGA, tswim);
    DivBounds(clk, hz);
    ThresholdBounds(clk, tswim, hz, d);
  }

  lemma ThresholdBounds(clk: nat, tswim: nat, hz: nat, d: nat)
    requires 55 <= tswim <= 2344 && clk < U32 && d >= 1
    requires tswim * hz <= 8 * GIGA < tswim * hz + tswim
    requires hz * d <= clk < hz * d + hz
    ensures 8 * d <= Threshold(clk, tswim) < 80 * d
  {
    MulLe(clk, U32, tswim * 8);
    DivBounds(clk * (tswim * 8) + 999_999_999, GIGA);
    LoopsCover(clk, tswim * 8);
    var ct, p := clk * tswim, tswim * hz;
    assert clk * (tswim * 8) == 8 * ct;
    DividedBounds(clk, tswim, hz, d, p, ct);
    MulLe(8 * GIGA - 2344, p, d);
    MulLe(p, 8 * GIGA, d);
  }

  lemma DividedBounds(clk: nat, tswim: nat, hz: nat, d: nat, p: nat, ct: nat)
    requires hz * d <= clk < hz * d + hz && p == tswim * hz && ct == clk * tswim
    ensures p * d <= ct <= p * d + p
  {
    MulLe(hz * d, clk, tswim);
    MulLe(clk, hz * d + hz, tswim);
    assert hz * d * tswim == p * d;
    assert (hz * d + hz) * tswim == p * d + p;
  }

  /** A frame through the encoder and the TX engine. */
  function Emitted(word: Word, count: nat, gap: bool, x: Word, y: Word, osr: Word, sched: seq<nat>): TxRun
    requires FrameFits(gap, count)
  {
    FrameAccepted(gap, BitsOf(word, count));
    Run(Start(Words(Frame(gap, BitsOf(word, count))), x, y, osr), sched)
  }

  lemma EmittedAsRequested(word: Word, count: nat, gap: bool, x: Word, y: Word, osr: Word,
      sched: seq<nat>)
    requires FrameFits(gap, count)
    requires Eager(sched) && |sched| >= TotalTicks(Frame(gap, BitsOf(word, count))) + 6
    ensures AsRequested(Frame(gap, BitsOf(word, count)), Emitted(word, count, gap, x, y, osr, sched))
  {
    FrameAccepted(gap, BitsOf(word, count));
    EagerIsIdeal(Frame(gap, BitsOf(word, count)), x, y, osr, sched);
  }

  /** The round trip. A frame of at most 15 bits after a gap (16 without) is built, encoded
      and run through the TX engine; its line, at any integer divider the tick rate allows,
      is replayed to a decoder armed with the firmware's threshold. One word comes out,
      and it is the word that went in. */
  lemma {:induction false} WireRoundTrip(word: Word, count: nat, gap: bool, clk: nat, tswim: nat,
                      x: Word, y: Word, osr: Word, sched: seq<nat>, rx: Sm)
    requires FrameFits(gap, count) && word < Pow2(count)
    requires 55 <= tswim <= 2344 && clk < U32 && Divider(clk, tswim) >= 1
    requires Eager(sched) && |sched| >= TotalTicks(Frame(gap, BitsOf(word, count))) + 6
    requires Parked(rx, count, Threshold(clk, tswim))
    ensures var line := Stretch(Divider(clk, tswim), Emitted(word, count, gap, x, y, osr, sched).wire);
            Watch(Clock, Outcome(rx, true), line).sm.rx == [word]
  {
    EmittedAsRequested(word, count, gap, x, y, osr, sched);
    ThresholdFits(clk, tswim);
    FrameReplayed(gap, BitsOf(word, count), Divider(clk, tswim), Threshold(clk, tswim), rx,
                  Emitted(word, count, gap, x, y, osr, sched));
    PackOfBits(word, count);
  }

  lemma {:induction false} FrameReplayed(gap: bool, bits: seq<bool>, d: nat, threshold: Word, rx: Sm, tx: TxRun)
    requires FrameFits(gap, |bits|) && d >= 1 && 8 * d <= threshold < 80 * d
    requires AsRequested(Frame(gap, bits), tx) && Parked(rx, |bits|, threshold)
    ensures Watch(Clock, Outcome(rx, true), Stretch(d, tx.wire)).sm.rx == [Pack(bits)]
  {
    var m := |tx.wire| - TotalTicks(Frame(gap, bits)) - 5;
    FrameLine(d, gap, bits, m);
    FrameDecodes(d, bits, m, threshold);
    assert IdleTicks(gap) * d >= 3 by { MulLe(1, d, IdleTicks(gap)); }
    DecodesWord(rx, threshold, IdleTicks(gap) * d, FramePulses(d, bits, m));
  }
}
