/**
The timing state of the PHY: which SWIM clock has been measured, and which calls may
change it.
*/
module PhyTiming {
  import opened BitVectors
  import opened Timing
  import opened Calibration
  import opened RxDriver
  import opened TxFrame
  import RxWidth

  /** The calls that touch the timing state, with what the hardware answered. A capture
      is the width the receiver reported, or nothing at the deadline; a polled wait is the
      sequence of low times, in microseconds, seen before the deadline. */
  datatype Op =
    | ResetTiming
    | ReleaseTarget
    | SetSpeed(speed: Speed)
    | EntryWaitSync(capture: Status, width: Width)
    | CommResetWaitSync(capture: Status, width: Width, polled: seq<nat>)
    | WaitSync(polled: seq<nat>)
    | DebugWaveform

  datatype State = State(synced: bool, tswim: nat, loops: nat, speed: Speed)

  const INITIAL := State(false, 0, 0, Low)

  predicate Ready(s: State) {
    s.synced && s.tswim != 0 && s.loops != 0
  }

  /** record_sync_measurement_ns */
  function Record(ns: nat, loops: nat): State {
    State(true, TswimOf(ns), loops, Low)
  }

  /** The checks between a captured width and recording it. */
  predicate Usable(capture: Status, w: Width) {
    capture == Ok && !w.timeout && SYNC_MIN_US <= w.lowUs <= SYNC_MAX_US
  }

  /** swim_sync_low_width_is_plausible_us */
  predicate Plausible(us: nat) {
    !(us < 8) && 12 <= us <= 300
  }

  /** The first of the polled lows of 12 to 300 us. */
  predicate FirstSync(lows: seq<nat>, i: int) {
    0 <= i < |lows| && 12 <= lows[i] <= 300 && forall k :: 0 <= k < i ==> !(12 <= lows[k] <= 300)
  }

  /** The first plausible low of a polled wait is recorded (with a non-zero
      loop count, here 1); the rest are skipped. */
  function Polled(s: State, lows: seq<nat>): State {
    if lows == [] then s
    else if Plausible(lows[0]) then Record(lows[0] * 1000, 1)
    else Polled(s, lows[1..])
  }

  function Apply(s: State, op: Op): State {
    match op
    case ResetTiming => s.(synced := false, tswim := 0, loops := 0)
    case ReleaseTarget => s.(synced := false)
    case SetSpeed(speed) => if speed == High && !Ready(s) then s else s.(speed := speed)
    case EntryWaitSync(c, w) => if Usable(c, w) then Record(w.lowNs, w.loopsUsed) else s
    case CommResetWaitSync(c, w, lows) =>
      if !Ready(s) then Polled(s, lows)
      else if Usable(c, w) then Record(w.lowNs, w.loopsUsed)
      else s
    case WaitSync(lows) => Polled(s, lows)
    case DebugWaveform => State(true, 125, 128, s.speed)
  }

  function Run(s: State, ops: seq<Op>): State {
    if ops == [] then s else Apply(Run(s, ops[..|ops| - 1]), ops[|ops| - 1])
  }

  predicate Genuine(op: Op) {
    op.EntryWaitSync? || op.CommResetWaitSync? ==> Reported(op.width)
  }

  predicate InRange(s: State) {
    s.tswim == 0 || 55 <= s.tswim <= 2344
  }

  /** Which reported widths are recorded: those above 7 us and up to 300 us. */
  lemma UsableIs(c: Status, w: Width)
    requires Reported(w)
    ensures Usable(c, w) <==> c == Ok && !w.timeout && 7_000 < w.lowNs <= 300_000
  {
  }

  /** A usable width of 128 periods of the target calibrates the PHY to the target. */
  lemma UsableCalibrates(clk: nat, period: real, low: nat, w: Width)
    requires 100_000_000 <= clk <= 4_000_000_000 && period > 0.0 && SeenAs(clk, 128.0 * period, low)
    requires w.lowNs == CapturedNs(clk, NsToMaxLoops(clk, 300_000), low)
    requires Reported(w) && Usable(Ok, w)
    ensures Calibrates(clk, period, low, Record(w.lowNs, w.loopsUsed).tswim)
  {
    UsableIs(Ok, w);
  }

  /** The nominal synchronisation, 16 us seen by a 125 MHz receiver, is recorded, as 125 ns. */
  lemma NominalRecorded()
    ensures var w := Width(1000, LoopsToNs(125_000_000, 1000), 16, false);
            Reported(w) && Usable(Ok, w) && Record(w.lowNs, w.loopsUsed) == State(true, 125, 1000, Low)
  {
    assert LoopsToNs(125_000_000, 1000) == 16_000;
  }

  /** The word waiting is that of a low of 128 target periods, captured within 300 us. */
  ghost predicate SyncPushed(clk: nat, budget: Word, words: seq<Word>, period: real, low: nat) {
    && 100_000_000 <= clk <= 4_000_000_000 && period > 0.0 && SeenAs(clk, 128.0 * period, low)
    && budget == NsToMaxLoops(clk, 300_000) && words != [] && words[0] == RxWidth.Remaining(low, budget)
  }

  lemma UsableInRange(c: Status, w: Width)
    requires Reported(w) && Usable(c, w)
    ensures 7001 <= w.lowNs <= 300_000 && InRange(Record(w.lowNs, w.loopsUsed))
  {
    AcceptedTswim(w.lowNs);
  }

  lemma {:induction false} PolledInRange(s: State, lows: seq<nat>)
    requires InRange(s)
    ensures InRange(Polled(s, lows))
    decreases |lows|
  {
    if lows != [] {
      if Plausible(lows[0]) {
        AcceptedTswim(lows[0] * 1000);
      } else {
        PolledInRange(s, lows[1..]);
      }
    }
  }

  lemma ApplyInRange(s: State, op: Op)
    requires InRange(s) && Genuine(op)
    ensures InRange(Apply(s, op))
  {
    match op
    case EntryWaitSync(c, w) => if Usable(c, w) { UsableInRange(c, w); }
    case CommResetWaitSync(c, w, lows) =>
      PolledInRange(s, lows);
      if Usable(c, w) { UsableInRange(c, w); }
    case WaitSync(lows) => PolledInRange(s, lows);
    case _ =>
  }

  /** After any sequence of calls, a PHY that says it is calibrated holds a SWIM clock
      between 55 and 2344 ns. */
  lemma {:induction false} ReadyInRange(ops: seq<Op>)
    requires forall i :: 0 <= i < |ops| ==> Genuine(ops[i])
    ensures InRange(Run(INITIAL, ops))
    ensures Ready(Run(INITIAL, ops)) ==> 55 <= Run(INITIAL, ops).tswim <= 2344
  {
    if ops != [] {
      ReadyInRange(ops[..|ops| - 1]);
      ApplyInRange(Run(INITIAL, ops[..|ops| - 1]), ops[|ops| - 1]);
    }
  }

  /** In that range every 32-bit product of the PHY fits, the guards on the tick rate never
      fire, no receive budget is clamped and, whatever word the ACK capture pushes, the ACK
      rounding cannot overflow. */
  lemma ReadyIsSafe(tswim: nat, clk: nat, remaining: Word)
    requires 55 <= tswim <= 2344 && 0 < clk < U32
    ensures tswim * SYNC_CLOCKS < U32 && tswim * 80 < U32
    ensures LoopsToNs(clk, UsedLoops(NsToMaxLoops(clk, tswim * 64), remaining)) + tswim / 2 < U32
    ensures 0 < 8 * GIGA / tswim < U32 && 0 < GIGA / tswim
    ensures forall clocks :: 0 < clocks <= 80 ==> NsToMaxLoops(clk, tswim * clocks) < MAX_LOOPS
    ensures NsToMaxLoops(clk, 300_000) < MAX_LOOPS
  {
    DivLargest(8 * GIGA, tswim, 1);
    DivLargest(8 * GIGA, tswim, U32);
    DivLargest(GIGA, tswim, 1);
    forall clocks | 0 < clocks <= 80
      ensures NsToMaxLoops(clk, tswim * clocks) < MAX_LOOPS
    {
      MulLe(tswim, 2344, clocks);
      BudgetFits(clk, tswim * clocks);
    }
    BudgetFits(clk, 300_000);
    BudgetFits(clk, tswim * 64);
    CapturedFits(clk, tswim * 64, UsedLoops(NsToMaxLoops(clk, tswim * 64), remaining));
  }

  /** What fits a budget is reported as at most its nanoseconds and one loop. */
  lemma CapturedFits(clk: nat, ns: nat, loops: nat)
    requires 0 < clk < U32 && 0 < ns && loops <= NsToMaxLoops(clk, ns) < MAX_LOOPS
    ensures LoopsToNs(clk, loops) <= ns + 2 * GIGA
  {
    LoopsCover(clk, ns);
    MulLe(1, clk, 2 * GIGA);
    assert clk * (ns + 2 * GIGA + 1) == clk * ns + clk * (2 * GIGA) + clk;
    DivLargest(loops * 2 * GIGA + clk / 2, clk, ns + 2 * GIGA + 1);
  }

  lemma BudgetFits(clk: nat, ns: nat)
    requires 0 < clk < U32 && ns <= 400_000
    ensures NsToMaxLoops(clk, ns) < MAX_LOOPS
  {
    MulLe(ns, 400_000, clk);
    DivLargest(clk * ns + 999_999_999, GIGA, 2_000_000);
  }

  class Phy {
    var synced: bool
    var tswim: nat
    var loops: nat
    var speed: Speed

    function Now(): State
      reads this
    {
      State(synced, tswim, loops, speed)
    }

    ghost predicate Valid()
      reads this
    {
      InRange(Now())
    }

    constructor ()
      ensures Valid() && Now() == INITIAL
    {
      synced, tswim, loops, speed := false, 0, 0, Low;
    }

    predicate TimingReady()
      reads this
    {
      synced && tswim != 0 && loops != 0
    }

    /** A synchronisation of `ns` nanoseconds has been recorded: low speed, and a SWIM clock of
        a 128th of it. */
    ghost predicate Measured(ns: nat, count: nat)
      reads this
    {
      synced && speed == Low && loops == count && 128 * tswim - 64 <= ns <= 128 * tswim + 63
    }

    method RecordSync(ns: nat, count: nat)
      requires InRange(Record(ns, count))
      modifies this
      ensures Valid() && Now() == Record(ns, count)
      ensures synced && speed == Low && loops == count && 128 * tswim - 64 <= ns <= 128 * tswim + 63
    {
      synced := true;
      tswim := (ns + SYNC_CLOCKS / 2) / SYNC_CLOCKS;
      loops := count;
      speed := Low;
    }

    method ResetTimingState()
      requires Valid()
      modifies this
      ensures Valid()
      ensures Now() == Apply(old(Now()), ResetTiming)
      ensures !TimingReady() && tswim == 0 && speed == old(speed)
    {
      synced := false;
      tswim := 0;
      loops := 0;
    }

    method Release()
      requires Valid()
      modifies this
      ensures Valid()
      ensures Now() == Apply(old(Now()), ReleaseTarget)
      ensures !TimingReady() && tswim == old(tswim) && loops == old(loops) && speed == old(speed)
    {
      synced := false;
    }

    method SelectSpeed(s: Speed) returns (ok: bool)
      requires Valid()
      modifies this
      ensures Valid()
      ensures Now() == Apply(old(Now()), SetSpeed(s))
      ensures !ok <==> s == High && !old(TimingReady())
      ensures speed == (if ok then s else old(speed)) && TimingReady() == old(TimingReady()) && tswim == old(tswim)
    {
      if s == High && !TimingReady() {
        return false;
      }
      speed := s;
      return true;
    }

    method EntrySequenceWaitSync(capture: Status, w: Width) returns (ok: bool)
      requires Valid() && Reported(w)
      modifies this
      ensures Valid()
      ensures Now() == Apply(old(Now()), EntryWaitSync(capture, w))
      ensures ok <==> capture == Ok && !w.timeout && 7_000 < w.lowNs <= 300_000
      ensures if ok then Measured(w.lowNs, w.loopsUsed) else Now() == old(Now())
    {
      UsableIs(capture, w);
      if capture != Ok {
        return false;
      }
      if w.timeout || w.lowUs < 8 || w.lowUs > 300 {
        return false;
      }
      UsableInRange(capture, w);
      RecordSync(w.lowNs, w.loopsUsed);
      return true;
    }

    /** The same from the receiver on: if what it has captured within the budget for 300 us is
        128 periods of the target, and usable, the PHY is calibrated to the target. */
    method EntryCapture(rx: Receiver, ghost period: real, ghost low: nat) returns (ok: bool)
      requires Valid() && rx.Valid()
      modifies this, rx
      ensures Valid()
      ensures ok && SyncPushed(rx.clk, rx.lastBudget, old(rx.sm.rx), period, low)
          ==> Calibrates(rx.clk, period, low, tswim) && speed == Low
    {
      var status, w := rx.GetWidth();
      if status != Ok {
        return false;
      }
      ok := EntrySequenceWaitSync(status, w);
      if ok && SyncPushed(rx.clk, rx.lastBudget, old(rx.sm.rx), period, low) {
        UsableCalibrates(rx.clk, period, low, w);
      }
    }

    /** The polled wait: short, long and implausible lows are skipped until the deadline. */
    method PollSync(lows: seq<nat>) returns (ok: bool)
      requires Valid()
      modifies this
      ensures Valid()
      ensures Now() == Polled(old(Now()), lows)
      ensures ok <==> exists i :: FirstSync(lows, i)
      ensures forall i :: FirstSync(lows, i) ==> Measured(1000 * lows[i], 1)
      ensures !ok ==> Now() == old(Now())
    {
      for i := 0 to |lows|
        invariant Now() == old(Now())
        invariant forall k :: 0 <= k < i ==> !(12 <= lows[k] <= 300)
        invariant Polled(Now(), lows) == Polled(Now(), lows[i..])
      {
        if Plausible(lows[i]) {
          assert FirstSync(lows, i);
          AcceptedTswim(lows[i] * 1000);
          RecordSync(lows[i] * 1000, 1);
          return true;
        }
      }
      return false;
    }

    method CommResetSync(capture: Status, w: Width, lows: seq<nat>) returns (ok: bool)
      requires Valid() && Reported(w)
      modifies this
      ensures Valid()
      ensures Now() == Apply(old(Now()), CommResetWaitSync(capture, w, lows))
      ensures old(TimingReady()) ==>
                && (ok <==> capture == Ok && !w.timeout && 7_000 < w.lowNs <= 300_000)
                && (ok ==> Measured(w.lowNs, w.loopsUsed))
      ensures !old(TimingReady()) ==>
                && (ok <==> exists i :: FirstSync(lows, i))
                && forall i :: FirstSync(lows, i) ==> Measured(1000 * lows[i], 1)
      ensures !ok ==> Now() == old(Now())
    {
      UsableIs(capture, w);
      if !TimingReady() {
        ok := PollSync(lows);
        return ok;
      }
      var tickHz := GIGA / tswim;
      DivLargest(GIGA, tswim, 1);
      if tickHz == 0 {
        return false;
      }
      if capture != Ok {
        return false;
      }
      if w.timeout || w.lowUs < 8 || w.lowUs > 300 {
        return false;
      }
      UsableInRange(capture, w);
      RecordSync(w.lowNs, w.loopsUsed);
      return true;
    }

    method EmitDebugWaveform()
      requires Valid()
      modifies this
      ensures Valid()
      ensures Now() == Apply(old(Now()), DebugWaveform)
      ensures TimingReady() && tswim == 125 && speed == old(speed)
    {
      ResetTimingState();
      synced := true;
      tswim := 125;
      loops := 128;
    }
  }
}
