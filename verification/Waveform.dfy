/**
The TX side: the C encoder that turns a segment list into PIO command words, and
the waveform program running those words out of a FIFO that a DMA channel fills at
arbitrary moments.
*/
module Waveform {
  import opened BitVectors

  const MAX_SEGMENTS := 32
  const OVERHEAD_TICKS := 8
  const TICKS_PER_US := 10

  const SEG_RELEASE := 0
  const SEG_LOW := 1

  datatype Status = Ok | BadArgument

  /** `level` is the C enum, which the caller may set to anything. */
  datatype Segment = Segment(level: Word, ticks: Word)
  datatype MicroSegment = MicroSegment(level: Word, us: Word)

  // ----- the encoder -----

  predicate Encodable(s: Segment) {
    s.level <= SEG_LOW && OVERHEAD_TICKS < s.ticks <= 0x7fff_ffff
  }

  function TotalTicks(segs: seq<Segment>): nat {
    if segs == [] then 0 else TotalTicks(segs[..|segs| - 1]) + segs[|segs| - 1].ticks
  }

  predicate Loadable(segs: seq<Segment>) {
    && 1 <= |segs| <= MAX_SEGMENTS
    && (forall i :: 0 <= i < |segs| ==> Encodable(segs[i]))
  }

  /** The lists that encode_tick_segments accepts. */
  predicate Accepted(segs: seq<Segment>) {
    Loadable(segs) && TotalTicks(segs) <= 0xFFFF_FFFF
  }

  function Command(s: Segment): (w: Word)
    requires Encodable(s)
    ensures w != 0
    ensures w % 2 == s.level && w / 2 + OVERHEAD_TICKS == s.ticks
  {
    (s.ticks - OVERHEAD_TICKS) * 2 + s.level
  }

  function Commands(segs: seq<Segment>): (ws: seq<Word>)
    requires forall i :: 0 <= i < |segs| ==> Encodable(segs[i])
    ensures |ws| == |segs|
    ensures forall i :: 0 <= i < |segs| ==> ws[i] == Command(segs[i])
  {
    seq(|segs|, i requires 0 <= i < |segs| => Command(segs[i]))
  }

  method EncodeTickSegments(segs: seq<Segment>, commands: array<Word>)
    returns (status: Status, total: Word)
    requires |segs| <= MAX_SEGMENTS ==> commands.Length > |segs|
    modifies commands
    ensures status == Ok <==> Accepted(segs)
    ensures status == Ok ==> commands[..|segs|] == Commands(segs) && total == TotalTicks(segs)
  {
    total := 0;
    if |segs| == 0 || |segs| > MAX_SEGMENTS {
      return BadArgument, total;
    }
    var sum: nat := 0;
    for i := 0 to |segs|
      invariant forall k :: 0 <= k < i ==> Encodable(segs[k])
      invariant forall k :: 0 <= k < i ==> commands[k] == Command(segs[k])
      invariant sum == TotalTicks(segs[..i])
    {
      assert segs[..i + 1][..i] == segs[..i];
      if segs[i].level != SEG_RELEASE && segs[i].level != SEG_LOW {
        return BadArgument, total;
      }
      if segs[i].ticks <= OVERHEAD_TICKS || segs[i].ticks > 0x7fff_ffff {
        return BadArgument, total;
      }
      var adjusted := segs[i].ticks - OVERHEAD_TICKS;
      commands[i] := adjusted * 2 + segs[i].level;
      sum := sum + segs[i].ticks;
    }
    assert segs[..|segs|] == segs;
    if sum > 0xFFFF_FFFF {
      return BadArgument, total;
    }
    return Ok, sum;
  }

  /** A microsecond segment means ten ticks a microsecond, if that fits a tick count. */
  function InTicks(segs: seq<MicroSegment>): (r: seq<Segment>)
    requires forall i :: 0 <= i < |segs| ==> segs[i].us * TICKS_PER_US <= 0xFFFF_FFFF
    ensures |r| == |segs|
  {
    seq(|segs|, i requires 0 <= i < |segs| => Segment(segs[i].level, segs[i].us * TICKS_PER_US))
  }

  /** The rate at which they are played, in ticks a second. */
  const MICRO_TICK_HZ := 10_000_000

  /** At that rate each segment lasts its microseconds. */
  lemma MicroTimes(segs: seq<MicroSegment>, i: nat)
    requires i < |segs| && forall k :: 0 <= k < |segs| ==> segs[k].us * TICKS_PER_US <= 0xFFFF_FFFF
    ensures InTicks(segs)[i].level == segs[i].level
    ensures InTicks(segs)[i].ticks * 1_000_000 == segs[i].us * MICRO_TICK_HZ
  {
  }

  function TotalMicros(segs: seq<MicroSegment>): nat {
    if segs == [] then 0 else TotalMicros(segs[..|segs| - 1]) + segs[|segs| - 1].us
  }

  predicate MicroEncodable(s: MicroSegment) {
    s.us * TICKS_PER_US <= 0x7fff_ffff && Encodable(Segment(s.level, s.us * TICKS_PER_US))
  }

  /** The lists that encode_segments accepts; the total bound is on microseconds. */
  predicate MicroAccepted(segs: seq<MicroSegment>) {
    && 1 <= |segs| <= MAX_SEGMENTS
    && (forall i :: 0 <= i < |segs| ==> MicroEncodable(segs[i]))
    && TotalMicros(segs) <= 0xFFFF_FFFF
  }

  method EncodeSegments(segs: seq<MicroSegment>, commands: array<Word>)
    returns (status: Status, totalUs: Word)
    requires |segs| <= MAX_SEGMENTS ==> commands.Length > |segs|
    modifies commands
    ensures status == Ok <==> MicroAccepted(segs)
    ensures status == Ok ==>
      Loadable(InTicks(segs)) && commands[..|segs|] == Commands(InTicks(segs)) && totalUs == TotalMicros(segs)
  {
    totalUs := 0;
    if |segs| == 0 || |segs| > MAX_SEGMENTS {
      return BadArgument, totalUs;
    }
    var sum: nat := 0;
    for i := 0 to |segs|
      invariant forall k :: 0 <= k < i ==> MicroEncodable(segs[k])
      invariant forall k :: 0 <= k < i ==> commands[k] == Command(Segment(segs[k].level, segs[k].us * TICKS_PER_US))
      invariant sum == TotalMicros(segs[..i])
    {
      assert segs[..i + 1][..i] == segs[..i];
      if segs[i].level != SEG_RELEASE && segs[i].level != SEG_LOW {
        return BadArgument, totalUs;
      }
      if segs[i].us == 0 {
        return BadArgument, totalUs;
      }
      var requested := segs[i].us * TICKS_PER_US;
      if requested <= OVERHEAD_TICKS || requested > 0x7fff_ffff {
        return BadArgument, totalUs;
      }
      var adjusted := requested - OVERHEAD_TICKS;
      commands[i] := adjusted * 2 + segs[i].level;
      sum := sum + segs[i].us;
    }
    assert segs[..|segs|] == segs;
    if sum > 0xFFFF_FFFF {
      return BadArgument, totalUs;
    }
    return Ok, sum;
  }

  // ----- the entry waveform -----

  /** `n` releases and lows of `us` microseconds each. */
  function Pulses(n: nat, us: Word): (p: seq<MicroSegment>)
    ensures |p| == 2 * n
    ensures forall i :: 0 <= i < |p| ==> p[i] == MicroSegment(if i % 2 == 0 then SEG_RELEASE else SEG_LOW, us)
  {
    seq(2 * n, i => MicroSegment(if i % 2 == 0 then SEG_RELEASE else SEG_LOW, us))
  }

  /** g_entry_segments without its last entry, as the entry plays it. */
  function EntrySegments(): (e: seq<MicroSegment>)
    ensures |e| == 18
  {
    [MicroSegment(SEG_RELEASE, 10), MicroSegment(SEG_LOW, 16)] + Pulses(4, 500) + Pulses(4, 250)
  }

  lemma {:induction false} TotalAppend(a: seq<MicroSegment>, b: seq<MicroSegment>)
    ensures TotalMicros(a + b) == TotalMicros(a) + TotalMicros(b)
    decreases |b|
  {
    if b == [] {
      assert a + b == a;
    } else {
      assert (a + b)[..|a + b| - 1] == a + b[..|b| - 1];
      TotalAppend(a, b[..|b| - 1]);
    }
  }

  lemma {:induction false} TotalEqual(segs: seq<MicroSegment>, us: nat)
    requires forall i :: 0 <= i < |segs| ==> segs[i].us == us
    ensures TotalMicros(segs) == |segs| * us
    decreases |segs|
  {
    if segs != [] {
      TotalEqual(segs[..|segs| - 1], us);
    }
  }

  /** The encoder takes it, and it lasts 6016 us after the line has settled for 10: a low of
      16, four pulses at 1 kHz and four at 2 kHz. */
  lemma EntryLasts()
    ensures MicroAccepted(EntrySegments()) && TotalMicros(EntrySegments()) == 10 + 6016
  {
    var e := EntrySegments();
    EntryTotal();
    forall i | 0 <= i < |e| ensures MicroEncodable(e[i]) {
      assert e[i].level <= SEG_LOW && 10 <= e[i].us <= 500;
    }
  }

  lemma EntryTotal()
    ensures TotalMicros(EntrySegments()) == 10 + 6016
  {
    var settle, force := [MicroSegment(SEG_RELEASE, 10)], [MicroSegment(SEG_LOW, 16)];
    var slow, fast := Pulses(4, 500), Pulses(4, 250);
    TotalEqual(settle, 10);
    TotalEqual(force, 16);
    TotalEqual(slow, 500);
    TotalEqual(fast, 250);
    TotalAppend(settle, force);
    assert settle + force == [MicroSegment(SEG_RELEASE, 10), MicroSegment(SEG_LOW, 16)];
    TotalAppend(settle + force, slow);
    TotalAppend(settle + force + slow, fast);
  }
}

/**
The waveform program at work. A run records, beside the machine, how long the line
was held at each level between two `set pindirs` instructions.
*/
module TxEngine {
  import opened BitVectors
  import opened Pio
  import opened Waveform

  /** A level, the ticks it has been held for, and how many of those the program
      spent stalled on an empty FIFO. */
  datatype Hold = Hold(low: bool, ticks: nat, stalls: nat)

  /** `wire[t]` is whether the line was driven low during tick t. */
  datatype TxRun = TxRun(sm: Sm, pending: seq<Word>, irqs: nat,
                         closed: seq<Hold>, open: Hold, wire: seq<bool>)

  /** The machine as the driver leaves it: restarted, FIFOs cleared, line released. */
  function Start(words: seq<Word>, x: Word, y: Word, osr: Word): TxRun {
    TxRun(Sm(0, x, y, osr, 0, false, [], []), words, 0, [], Hold(false, 0, 0), [])
  }

  function Min(a: nat, b: nat): nat {
    if a <= b then a else b
  }

  /** The DMA channel moves up to `n` words, as far as the FIFO has room. */
  function Dma(r: TxRun, n: nat): TxRun
    requires |r.sm.tx| <= TX_DEPTH
  {
    var k := Min(n, Min(|r.pending|, TX_DEPTH - |r.sm.tx|));
    r.(sm := r.sm.(tx := r.sm.tx + r.pending[..k]), pending := r.pending[k..])
  }

  predicate Starved(s: Sm) {
    s.pc < WAVEFORM_SIZE && WaveformAt(s.pc).PullBlock? && s.tx == []
  }

  predicate Drives(s: Sm) {
    s.pc < WAVEFORM_SIZE && WaveformAt(s.pc).SetPindirs?
  }

  /** One clock of the program. It does not look at the line or at the flag. */
  function Step(s: Sm): Outcome {
    if s.pc < WAVEFORM_SIZE then Execute(WaveformAt(s.pc), Next(WAVEFORM_SIZE, s.pc), s, true, false)
    else Outcome(s, false)
  }

  /** One TX clock. */
  function Advance(d: TxRun): (t: TxRun)
    ensures |t.sm.tx| <= |d.sm.tx|
  {
    var o := Step(d.sm);
    var held := Hold(d.open.low, d.open.ticks + 1, d.open.stalls + (if Starved(d.sm) then 1 else 0));
    TxRun(o.sm, d.pending, d.irqs + (if o.irq then 1 else 0),
          if Drives(d.sm) then d.closed + [held] else d.closed,
          if Drives(d.sm) then Hold(o.sm.low, 0, 0) else held,
          d.wire + [d.sm.low])
  }

  /** One TX clock, after the DMA channel has moved up to `n` words. */
  function Tick(r: TxRun, n: nat): (t: TxRun)
    requires |r.sm.tx| <= TX_DEPTH
    ensures |t.sm.tx| <= TX_DEPTH
  {
    Advance(Dma(r, n))
  }

  /** A run under a DMA schedule: one number of available words for each tick. */
  function Run(r: TxRun, sched: seq<nat>): (r': TxRun)
    requires |r.sm.tx| <= TX_DEPTH
    ensures |r'.sm.tx| <= TX_DEPTH
  {
    if sched == [] then r else Tick(Run(r, sched[..|sched| - 1]), sched[|sched| - 1])
  }

  /** What a run is from outside. */
  ghost predicate Shows(sm: Sm, wire: seq<bool>, irqs: nat, pending: seq<Word>, r: TxRun) {
    sm == r.sm && wire == r.wire && irqs == r.irqs && pending == r.pending
  }

  /** The DMA channel moves what it has, and the machine executes one instruction. */
  method EmitTick(sm: StateMachine, n: nat, words: seq<Word>, ghost r: TxRun)
    returns (level: bool, flag: bool, pending: seq<Word>)
    requires sm.pc < WAVEFORM_SIZE && |sm.tx| <= TX_DEPTH && sm.Now() == r.sm && words == r.pending
    modifies sm
    ensures Shows(sm.Now(), r.wire + [level], r.irqs + (if flag then 1 else 0), pending, Tick(r, n))
    ensures sm.pc < WAVEFORM_SIZE
  {
    var k := Min(n, Min(|words|, TX_DEPTH - |sm.tx|));
    sm.tx, pending := sm.tx + words[..k], words[k..];
    ghost var d := Dma(r, n);
    assert sm.Now() == d.sm && pending == d.pending;
    InProgram(d.sm);
    AdvanceSeen(d);
    level := sm.low;
    flag := sm.Clock(WaveformAt(sm.pc), Next(WAVEFORM_SIZE, sm.pc), true, false);
  }

  lemma AdvanceSeen(d: TxRun)
    ensures Shows(Step(d.sm).sm, d.wire + [d.sm.low], d.irqs + (if Step(d.sm).irq then 1 else 0), d.pending, Advance(d))
  {
  }

  /** The machine and the DMA channel at work, tick by tick. */
  method Emit(sm: StateMachine, words: seq<Word>, sched: seq<nat>)
    returns (wire: seq<bool>, irqs: nat, pending: seq<Word>)
    requires sm.pc == 0 && !sm.low && sm.isr == 0 && sm.tx == [] && sm.rx == []
    modifies sm
    ensures Shows(sm.Now(), wire, irqs, pending, Run(Start(words, old(sm.x), old(sm.y), old(sm.osr)), sched))
  {
    wire, irqs, pending := [], 0, words;
    ghost var start := Start(words, sm.x, sm.y, sm.osr);
    for t := 0 to |sched|
      invariant |sm.tx| <= TX_DEPTH && sm.pc < WAVEFORM_SIZE
      invariant Shows(sm.Now(), wire, irqs, pending, Run(start, sched[..t]))
    {
      assert sched[..t + 1][..t] == sched[..t];
      var level, flag;
      level, flag, pending := EmitTick(sm, sched[t], pending, Run(start, sched[..t]));
      wire, irqs := wire + [level], irqs + if flag then 1 else 0;
    }
    assert sched[..|sched|] == sched;
  }

  lemma InProgram(s: Sm)
    requires s.pc < WAVEFORM_SIZE
    ensures Step(s).sm.pc < WAVEFORM_SIZE
  {
  }

  // ----- the invariant -----

  /** What the driver hands to the DMA channel: the commands and the zero sentinel. */
  function Words(segs: seq<Segment>): seq<Word>
    requires Loadable(segs)
  {
    Commands(segs) + [0]
  }

  predicate LevelOf(segs: seq<Segment>, k: nat)
    requires k <= |segs| + 1
  {
    0 < k <= |segs| && segs[k - 1].level == SEG_LOW
  }

  /** Ticks that hold `k` lasts when the program never stalls: hold 0 is the idle
      line before the first segment, hold k is segment k - 1. The segment before
      the sentinel is one tick short, because `jmp !y` is skipped. */
  function Nominal(segs: seq<Segment>, k: nat): int
    requires k <= |segs|
  {
    if k == 0 then 6 else segs[k - 1].ticks - (if k == |segs| then 1 else 0)
  }

  ghost predicate ClosedAsListed(segs: seq<Segment>, closed: seq<Hold>)
    requires |closed| <= |segs| + 1
  {
    forall k :: 0 <= k < |closed| ==>
      closed[k].low == LevelOf(segs, k) && closed[k].ticks == Nominal(segs, k) + closed[k].stalls
  }

  /** Ticks of the open hold, stalls apart, when the program is back at `start`. */
  function AtPull(segs: seq<Segment>, k: nat): int
    requires k <= |segs|
  {
    if k == 0 then 0 else segs[k - 1].ticks - 6
  }

  ghost predicate Feeding(segs: seq<Segment>, r: TxRun, from: nat)
    requires Loadable(segs) && from <= |segs| + 1
  {
    r.sm.tx + r.pending == Words(segs)[from..]
  }

  /** Where the program can be while hold k is open, k <= |segs|. */
  ghost predicate Phase(segs: seq<Segment>, r: TxRun, k: nat)
    requires Loadable(segs) && k <= |segs|
  {
    var s := r.sm;
    var w := Words(segs)[k];
    var spent := r.open.ticks - r.open.stalls - AtPull(segs, k);
    match s.pc
    case 0 => spent == 0 && Feeding(segs, r, k)
    case 1 => spent == 1 && Feeding(segs, r, k + 1) && s.osr == w
    case 2 => spent == 2 && Feeding(segs, r, k + 1) && s.osr == w / 2 && s.y == w % 2
    case 3 => spent == 3 && Feeding(segs, r, k + 1) && s.x == w / 2 && s.y == w % 2
    case 4 => spent == 4 && Feeding(segs, r, k + 1) && s.x == w / 2 && s.y == w % 2 && s.x != 0
    case 5 => spent == 5 && Feeding(segs, r, k + 1) && s.x == w / 2 && w % 2 == 1 && s.x != 0
    case 8 => spent == 5 && Feeding(segs, r, k + 1) && s.x == w / 2 && w % 2 == 0 && s.x != 0
    case 11 => spent == 4 && Feeding(segs, r, k + 1) && w == 0
    case 6 => k > 0 && segs[k - 1].level == 1 && r.open.stalls == 0
              && r.open.ticks + s.x == segs[k - 1].ticks - OVERHEAD_TICKS && Feeding(segs, r, k)
    case 9 => k > 0 && segs[k - 1].level == 0 && r.open.stalls == 0
              && r.open.ticks + s.x == segs[k - 1].ticks - OVERHEAD_TICKS && Feeding(segs, r, k)
    case 7 => k > 0 && spent == -1 && r.open.stalls == 0 && Feeding(segs, r, k)
    case 10 => k > 0 && spent == -1 && r.open.stalls == 0 && Feeding(segs, r, k)
    case _ => false
  }

  /** After the last segment: the line is released, then IRQ0 goes up once. */
  ghost predicate Finished(r: TxRun) {
    && r.sm.tx + r.pending == []
    && ((r.sm.pc == 12 && r.irqs == 0 && r.open.ticks == 0)
        || (r.sm.pc == 13 && r.irqs == 1 && r.open.ticks >= 1))
  }

  ghost predicate Inv(segs: seq<Segment>, r: TxRun)
    requires Loadable(segs)
  {
    var k := |r.closed|;
    && |r.sm.tx| <= TX_DEPTH
    && k <= |segs| + 1
    && ClosedAsListed(segs, r.closed)
    && r.open.low == LevelOf(segs, k)
    && r.sm.low == r.open.low
    && r.open.stalls <= r.open.ticks
    && (if k <= |segs| then Phase(segs, r, k) && r.irqs == 0 else Finished(r))
  }

  lemma DmaKeeps(segs: seq<Segment>, r: TxRun, n: nat)
    requires Loadable(segs) && Inv(segs, r)
    ensures Inv(segs, Dma(r, n))
  {
    DmaMoves(r, n);
    if |r.closed| <= |segs| {
      DmaPhase(segs, r, Dma(r, n), |r.closed|);
    }
  }

  lemma DmaMoves(r: TxRun, n: nat)
    requires |r.sm.tx| <= TX_DEPTH
    ensures var d := Dma(r, n);
            && d == r.(sm := r.sm.(tx := d.sm.tx), pending := d.pending)
            && d.sm.tx + d.pending == r.sm.tx + r.pending && |d.sm.tx| <= TX_DEPTH
  {
  }

  lemma DmaPhase(segs: seq<Segment>, r: TxRun, d: TxRun, k: nat)
    requires Loadable(segs) && k <= |segs| && Phase(segs, r, k)
    requires d == r.(sm := r.sm.(tx := d.sm.tx), pending := d.pending)
    requires d.sm.tx + d.pending == r.sm.tx + r.pending
    ensures Phase(segs, d, k)
  {
  }

  /** A tick that drives nothing: the machine is in `s` and the hold goes on. */
  function Held(d: TxRun, s: Sm, stall: nat): TxRun {
    TxRun(s, d.pending, d.irqs, d.closed, Hold(d.open.low, d.open.ticks + 1, d.open.stalls + stall), d.wire + [d.sm.low])
  }

  lemma {:induction false} AdvanceHeld(d: TxRun)
    requires d.sm.pc in {0, 1, 2, 3, 4, 6, 7, 9, 10}
    ensures Advance(d) == Held(d, Step(d.sm).sm, if Starved(d.sm) then 1 else 0)
  {
  }

  /** Then the phase of the hold is all that has to be shown. */
  lemma HeldKeeps(segs: seq<Segment>, d: TxRun, s: Sm, stall: nat)
    requires Loadable(segs) && Inv(segs, d) && |d.closed| <= |segs| && stall <= 1
    requires s.low == d.sm.low && |s.tx| <= |d.sm.tx| && Phase(segs, Held(d, s, stall), |d.closed|)
    ensures Inv(segs, Held(d, s, stall))
  {
  }

  lemma FedNext(ws: seq<Word>, tx: seq<Word>, pending: seq<Word>, k: nat)
    requires k <= |ws| && tx != [] && tx + pending == ws[k..]
    ensures k < |ws| && tx[0] == ws[k] && tx[1..] + pending == ws[k + 1..]
  {
    assert (tx + pending)[0] == ws[k];
    assert tx[1..] + pending == (tx + pending)[1..];
  }

  lemma PullPhase(segs: seq<Segment>, d: TxRun, k: nat)
    requires Loadable(segs) && k <= |segs| && Phase(segs, d, k) && d.sm.pc == 0
    ensures d.sm.tx == [] ==> Phase(segs, Held(d, d.sm, 1), k)
    ensures d.sm.tx != [] ==> Phase(segs, Held(d, d.sm.(pc := 1, osr := d.sm.tx[0], tx := d.sm.tx[1..]), 0), k)
  {
    if d.sm.tx != [] {
      FedNext(Words(segs), d.sm.tx, d.pending, k);
    }
  }

  lemma PullKeeps(segs: seq<Segment>, d: TxRun)
    requires Loadable(segs) && Inv(segs, d) && |d.closed| <= |segs| && d.sm.pc == 0
    ensures Inv(segs, Advance(d))
  {
    AdvanceHeld(d);
    PullPhase(segs, d, |d.closed|);
    HeldKeeps(segs, d, Step(d.sm).sm, if Starved(d.sm) then 1 else 0);
  }

  lemma LevelPhase(segs: seq<Segment>, d: TxRun, k: nat)
    requires Loadable(segs) && k <= |segs| && Phase(segs, d, k) && d.sm.pc == 1
    ensures Phase(segs, Held(d, d.sm.(pc := 2, y := d.sm.osr % 2, osr := d.sm.osr / 2), 0), k)
  {
  }

  lemma CountPhase(segs: seq<Segment>, d: TxRun, k: nat)
    requires Loadable(segs) && k <= |segs| && Phase(segs, d, k) && d.sm.pc == 2
    ensures Phase(segs, Held(d, d.sm.(pc := 3, x := d.sm.osr % 0x8000_0000, osr := d.sm.osr / 0x8000_0000), 0), k)
  {
  }

  /** A command has a count; only the sentinel has none. */
  lemma CountOf(segs: seq<Segment>, k: nat)
    requires Loadable(segs) && k < |segs|
    ensures Words(segs)[k] / 2 > 0
  {
    assert Words(segs)[k] == Command(segs[k]);
  }

  lemma DonePhase(segs: seq<Segment>, d: TxRun, k: nat)
    requires Loadable(segs) && k <= |segs| && Phase(segs, d, k) && d.sm.pc == 3
    ensures Phase(segs, Held(d, d.sm.(pc := if d.sm.x == 0 then 11 else 4), 0), k)
  {
    if k < |segs| {
      CountOf(segs, k);
    }
  }

  lemma BranchPhase(segs: seq<Segment>, d: TxRun, k: nat)
    requires Loadable(segs) && k <= |segs| && Phase(segs, d, k) && d.sm.pc == 4
    ensures Phase(segs, Held(d, d.sm.(pc := if d.sm.y == 0 then 8 else 5), 0), k)
  {
  }

  lemma LevelKeeps(segs: seq<Segment>, d: TxRun, s: Sm)
    requires Loadable(segs) && Inv(segs, d) && |d.closed| <= |segs| && d.sm.pc == 1
    requires s == d.sm.(pc := 2, y := d.sm.osr % 2, osr := d.sm.osr / 2)
    ensures Inv(segs, Held(d, s, 0))
  {
    LevelPhase(segs, d, |d.closed|);
    HeldKeeps(segs, d, s, 0);
  }

  lemma CountKeeps(segs: seq<Segment>, d: TxRun, s: Sm)
    requires Loadable(segs) && Inv(segs, d) && |d.closed| <= |segs| && d.sm.pc == 2
    requires s == d.sm.(pc := 3, x := d.sm.osr % 0x8000_0000, osr := d.sm.osr / 0x8000_0000)
    ensures Inv(segs, Held(d, s, 0))
  {
    CountPhase(segs, d, |d.closed|);
    HeldKeeps(segs, d, s, 0);
  }

  lemma BranchKeeps(segs: seq<Segment>, d: TxRun, s: Sm)
    requires Loadable(segs) && Inv(segs, d) && |d.closed| <= |segs| && (d.sm.pc == 3 || d.sm.pc == 4)
    requires s == d.sm.(pc := if d.sm.pc == 3 then (if d.sm.x == 0 then 11 else 4) else if d.sm.y == 0 then 8 else 5)
    ensures Inv(segs, Held(d, s, 0))
  {
    if d.sm.pc == 3 {
      DonePhase(segs, d, |d.closed|);
    } else {
      BranchPhase(segs, d, |d.closed|);
    }
    HeldKeeps(segs, d, s, 0);
  }

  lemma LoadStep(s: Sm)
    requires s.pc == 1 || s.pc == 2
    ensures Step(s).sm == if s.pc == 1 then s.(pc := 2, y := s.osr % 2, osr := s.osr / 2)
                          else s.(pc := 3, x := s.osr % 0x8000_0000, osr := s.osr / 0x8000_0000)
    ensures !Starved(s)
  {
  }

  lemma BranchStep(s: Sm)
    requires s.pc == 3 || s.pc == 4
    ensures Step(s).sm == s.(pc := if s.pc == 3 then (if s.x == 0 then 11 else 4) else if s.y == 0 then 8 else 5)
    ensures !Starved(s)
  {
  }

  lemma DecodeKeeps(segs: seq<Segment>, d: TxRun)
    requires Loadable(segs) && Inv(segs, d) && |d.closed| <= |segs| && 1 <= d.sm.pc <= 4
    ensures Inv(segs, Advance(d))
  {
    var s := Step(d.sm).sm;
    if d.sm.pc <= 2 {
      LoadStep(d.sm);
      if d.sm.pc == 1 {
        LevelKeeps(segs, d, s);
      } else {
        CountKeeps(segs, d, s);
      }
    } else {
      BranchStep(d.sm);
      BranchKeeps(segs, d, s);
    }
    AdvanceHeld(d);
  }

  lemma CloseListed(segs: seq<Segment>, closed: seq<Hold>, h: Hold)
    requires |closed| <= |segs| && ClosedAsListed(segs, closed)
    requires h.low == LevelOf(segs, |closed|) && h.ticks == Nominal(segs, |closed|) + h.stalls
    ensures ClosedAsListed(segs, closed + [h])
  {
  }

  /** What a `set pindirs` instruction does to a run. */
  function Driven(d: TxRun, low: bool): TxRun {
    d.(sm := d.sm.(pc := d.sm.pc + 1, low := low), open := Hold(low, 0, 0), wire := d.wire + [d.sm.low],
       closed := d.closed + [Hold(d.open.low, d.open.ticks + 1, d.open.stalls)])
  }

  lemma DrivenKeeps(segs: seq<Segment>, d: TxRun)
    requires Loadable(segs) && Inv(segs, d) && |d.closed| <= |segs|
    requires d.sm.pc == 5 || d.sm.pc == 8
    ensures Inv(segs, Driven(d, d.sm.pc == 5))
  {
    var k := |d.closed|;
    assert k < |segs| && Words(segs)[k] == Command(segs[k]);
    CloseListed(segs, d.closed, Hold(d.open.low, d.open.ticks + 1, d.open.stalls));
  }

  lemma DoneKeeps(segs: seq<Segment>, d: TxRun)
    requires Loadable(segs) && Inv(segs, d) && |d.closed| <= |segs| && d.sm.pc == 11
    ensures Inv(segs, Driven(d, false))
  {
    assert forall i :: 0 <= i < |segs| ==> Words(segs)[i] != 0;
    CloseListed(segs, d.closed, Hold(d.open.low, d.open.ticks + 1, d.open.stalls));
  }

  lemma DriveKeeps(segs: seq<Segment>, d: TxRun)
    requires Loadable(segs) && Inv(segs, d) && |d.closed| <= |segs|
    requires d.sm.pc == 5 || d.sm.pc == 8 || d.sm.pc == 11
    ensures Inv(segs, Advance(d))
  {
    assert Advance(d) == Driven(d, d.sm.pc == 5);
    if d.sm.pc == 11 {
      DoneKeeps(segs, d);
    } else {
      DrivenKeeps(segs, d);
    }
  }

  lemma LoopPhase(segs: seq<Segment>, d: TxRun, k: nat)
    requires Loadable(segs) && k <= |segs| && Phase(segs, d, k) && (d.sm.pc == 6 || d.sm.pc == 9)
    ensures Phase(segs, Held(d, d.sm.(pc := if d.sm.x != 0 then d.sm.pc else d.sm.pc + 1, x := Decrement(d.sm.x)), 0), k)
  {
  }

  lemma BackPhase(segs: seq<Segment>, d: TxRun, k: nat)
    requires Loadable(segs) && k <= |segs| && Phase(segs, d, k) && (d.sm.pc == 7 || d.sm.pc == 10)
    ensures Phase(segs, Held(d, d.sm.(pc := 0), 0), k)
  {
  }

  lemma CountdownKeeps(segs: seq<Segment>, d: TxRun, s: Sm)
    requires Loadable(segs) && Inv(segs, d) && |d.closed| <= |segs| && (d.sm.pc == 6 || d.sm.pc == 9)
    requires s == d.sm.(pc := if d.sm.x != 0 then d.sm.pc else d.sm.pc + 1, x := Decrement(d.sm.x))
    ensures Inv(segs, Held(d, s, 0))
  {
    LoopPhase(segs, d, |d.closed|);
    HeldKeeps(segs, d, s, 0);
  }

  lemma BackKeeps(segs: seq<Segment>, d: TxRun, s: Sm)
    requires Loadable(segs) && Inv(segs, d) && |d.closed| <= |segs| && (d.sm.pc == 7 || d.sm.pc == 10)
    requires s == d.sm.(pc := 0)
    ensures Inv(segs, Held(d, s, 0))
  {
    BackPhase(segs, d, |d.closed|);
    HeldKeeps(segs, d, s, 0);
  }

  lemma LoopStep(s: Sm)
    requires s.pc == 6 || s.pc == 7 || s.pc == 9 || s.pc == 10
    ensures Step(s).sm == if s.pc == 6 || s.pc == 9 then s.(pc := if s.x != 0 then s.pc else s.pc + 1, x := Decrement(s.x))
                          else s.(pc := 0)
    ensures !Starved(s)
  {
  }

  lemma LoopKeeps(segs: seq<Segment>, d: TxRun)
    requires Loadable(segs) && Inv(segs, d) && |d.closed| <= |segs|
    requires d.sm.pc == 6 || d.sm.pc == 7 || d.sm.pc == 9 || d.sm.pc == 10
    ensures Inv(segs, Advance(d))
  {
    var s := Step(d.sm).sm;
    LoopStep(d.sm);
    if d.sm.pc == 6 || d.sm.pc == 9 {
      CountdownKeeps(segs, d, s);
    } else {
      BackKeeps(segs, d, s);
    }
    AdvanceHeld(d);
  }

  lemma FinishedKeeps(segs: seq<Segment>, d: TxRun)
    requires Loadable(segs) && Inv(segs, d) && |d.closed| == |segs| + 1
    ensures Inv(segs, Advance(d)) && Advance(d).closed == d.closed
  {
  }

  /** Every tick keeps the invariant, whatever the DMA channel did before it. */
  lemma TickKeeps(segs: seq<Segment>, r: TxRun, n: nat)
    requires Loadable(segs) && Inv(segs, r)
    ensures Inv(segs, Tick(r, n))
  {
    var d := Dma(r, n);
    DmaKeeps(segs, r, n);
    if |d.closed| == |segs| + 1 {
      FinishedKeeps(segs, d);
    } else if d.sm.pc == 0 {
      PullKeeps(segs, d);
    } else if d.sm.pc <= 4 {
      DecodeKeeps(segs, d);
    } else if d.sm.pc == 5 || d.sm.pc == 8 || d.sm.pc == 11 {
      DriveKeeps(segs, d);
    } else {
      LoopKeeps(segs, d);
    }
  }

  lemma {:induction false} RunKeeps(segs: seq<Segment>, x: Word, y: Word, osr: Word, sched: seq<nat>)
    requires Loadable(segs)
    ensures Inv(segs, Run(Start(Words(segs), x, y, osr), sched))
  {
    if sched == [] {
      assert Words(segs)[0..] == Words(segs);
    } else {
      RunKeeps(segs, x, y, osr, sched[..|sched| - 1]);
      TickKeeps(segs, Run(Start(Words(segs), x, y, osr), sched[..|sched| - 1]), sched[|sched| - 1]);
    }
  }

  // ----- the line -----

  function Level(low: bool, n: nat): (w: seq<bool>)
    ensures |w| == n && forall i :: 0 <= i < n ==> w[i] == low
  {
    seq(n, _ => low)
  }

  /** The line over a list of holds, tick by tick. */
  function Flatten(holds: seq<Hold>): seq<bool> {
    if holds == [] then []
    else Flatten(holds[..|holds| - 1]) + Level(holds[|holds| - 1].low, holds[|holds| - 1].ticks)
  }

  /** The line is its holds. */
  ghost predicate IsWire(wire: seq<bool>, closed: seq<Hold>, open: Hold) {
    wire == Flatten(closed) + Level(open.low, open.ticks)
  }

  lemma WireGoesOn(wire: seq<bool>, closed: seq<Hold>, open: Hold, h: Hold)
    requires IsWire(wire, closed, open) && h.low == open.low && h.ticks == open.ticks + 1
    ensures IsWire(wire + [open.low], closed, h)
    ensures forall low :: IsWire(wire + [open.low], closed + [h], Hold(low, 0, 0))
  {
    LevelGrows(open.low, open.ticks);
    FlattenNext(closed, h);
  }

  lemma AdvanceShape(d: TxRun)
    ensures var t := Advance(d);
            var h := Hold(d.open.low, d.open.ticks + 1, d.open.stalls + (if Starved(d.sm) then 1 else 0));
            && t.wire == d.wire + [d.sm.low]
            && (if Drives(d.sm) then t.closed == d.closed + [h] && t.open == Hold(t.sm.low, 0, 0)
                else t.closed == d.closed && t.open == h)
  {
  }

  lemma TickWire(segs: seq<Segment>, q: TxRun, n: nat)
    requires Loadable(segs) && Inv(segs, q)
    requires IsWire(q.wire, q.closed, q.open)
    ensures var r := Tick(q, n);
            IsWire(r.wire, r.closed, r.open) && |r.wire| == |q.wire| + 1
  {
    var d := Dma(q, n);
    AdvanceShape(d);
    WireGoesOn(q.wire, q.closed, q.open, Hold(d.open.low, d.open.ticks + 1, d.open.stalls + (if Starved(d.sm) then 1 else 0)));
  }

  lemma LevelGrows(low: bool, n: nat)
    ensures Level(low, n + 1) == Level(low, n) + [low]
  {
  }

  lemma {:induction false} FlattenNext(holds: seq<Hold>, h: Hold)
    ensures Flatten(holds + [h]) == Flatten(holds) + Level(h.low, h.ticks)
  {
    assert (holds + [h])[..|holds|] == holds;
  }

  /** The recorded holds are the line itself: `wire` is their concatenation. */
  lemma {:induction false} WireIsHolds(segs: seq<Segment>, x: Word, y: Word, osr: Word, sched: seq<nat>)
    requires Loadable(segs)
    ensures var r := Run(Start(Words(segs), x, y, osr), sched);
            r.wire == Flatten(r.closed) + Level(r.open.low, r.open.ticks) && |r.wire| == |sched|
  {
    if sched != [] {
      WireIsHolds(segs, x, y, osr, sched[..|sched| - 1]);
      RunKeeps(segs, x, y, osr, sched[..|sched| - 1]);
      TickWire(segs, Run(Start(Words(segs), x, y, osr), sched[..|sched| - 1]), sched[|sched| - 1]);
    }
  }

  // ----- the main results -----

  function Stalls(holds: seq<Hold>): nat {
    if holds == [] then 0 else Stalls(holds[..|holds| - 1]) + holds[|holds| - 1].stalls
  }

  /** Ticks in which the program moved on, up to the final release. */
  function Productive(segs: seq<Segment>, r: TxRun): int {
    |r.wire| - Stalls(r.closed) - (if |r.closed| <= |segs| then r.open.stalls else 0)
  }

  function NominalSum(segs: seq<Segment>, k: nat): int
    requires k <= |segs| + 1
  {
    if k == 0 then 0 else NominalSum(segs, k - 1) + Nominal(segs, k - 1)
  }

  lemma {:induction false} NominalTotal(segs: seq<Segment>, k: nat)
    requires 1 <= k <= |segs| + 1 && 1 <= |segs|
    ensures NominalSum(segs, k) == 6 + TotalTicks(segs[..k - 1]) - (if k == |segs| + 1 then 1 else 0)
  {
    if k > 1 {
      NominalTotal(segs, k - 1);
      assert segs[..k - 1][..k - 2] == segs[..k - 2];
    }
  }

  lemma {:induction false} NominalMonotone(segs: seq<Segment>, j: nat, k: nat)
    requires Loadable(segs) && j <= k <= |segs| + 1
    ensures NominalSum(segs, j) <= NominalSum(segs, k)
    decreases k
  {
    if j < k {
      NominalMonotone(segs, j, k - 1);
    }
  }

  lemma {:induction false} FlattenLength(segs: seq<Segment>, holds: seq<Hold>)
    requires Loadable(segs) && |holds| <= |segs| + 1 && ClosedAsListed(segs, holds)
    ensures |Flatten(holds)| == NominalSum(segs, |holds|) + Stalls(holds)
  {
    if holds != [] {
      FlattenLength(segs, holds[..|holds| - 1]);
    }
  }

  /** What a run of list `segs` looks like from outside, at any moment. */
  ghost predicate Transmitted(segs: seq<Segment>, r: TxRun) {
    && |r.closed| <= |segs| + 1
    && ClosedAsListed(segs, r.closed)
    && r.open.low == LevelOf(segs, |r.closed|)
    && r.wire == Flatten(r.closed) + Level(r.open.low, r.open.ticks)
    && r.irqs <= 1
    && (r.irqs == 1 ==> |r.closed| == |segs| + 1 && !r.sm.low)
    && (r.irqs == 1 <==> Productive(segs, r) >= TotalTicks(segs) + 6)
  }

  /** For every list either encoder accepts and every DMA schedule: the line takes the
      listed levels in the listed order, each for its requested ticks plus the ticks the
      program starved in it (the last one tick less), and then stays released. IRQ0
      is raised once, only after that release, and has been raised exactly when the
      run has had the list's total plus six productive ticks. */
  lemma TransmitsAsListed(segs: seq<Segment>, x: Word, y: Word, osr: Word, sched: seq<nat>)
    requires Loadable(segs)
    ensures Transmitted(segs, Run(Start(Words(segs), x, y, osr), sched))
  {
    RunKeeps(segs, x, y, osr, sched);
    WireIsHolds(segs, x, y, osr, sched);
    InvTransmits(segs, Run(Start(Words(segs), x, y, osr), sched));
  }

  lemma InvTransmits(segs: seq<Segment>, r: TxRun)
    requires Loadable(segs) && Inv(segs, r)
    requires r.wire == Flatten(r.closed) + Level(r.open.low, r.open.ticks)
    ensures Transmitted(segs, r)
  {
    if |r.closed| <= |segs| {
      OpenIsShort(segs, r);
      ProductiveUnfinished(segs, r);
    } else {
      ProductiveFinished(segs, r);
    }
  }

  lemma {:induction false} ProductiveUnfinished(segs: seq<Segment>, r: TxRun)
    requires Loadable(segs) && |r.closed| <= |segs| && ClosedAsListed(segs, r.closed)
    requires r.wire == Flatten(r.closed) + Level(r.open.low, r.open.ticks)
    requires r.open.ticks - r.open.stalls < Nominal(segs, |r.closed|)
    ensures Productive(segs, r) < TotalTicks(segs) + 6
  {
    FlattenLength(segs, r.closed);
    NominalTotal(segs, |segs| + 1);
    assert segs[..|segs|] == segs;
    NominalMonotone(segs, |r.closed| + 1, |segs| + 1);
  }

  lemma {:induction false} ProductiveFinished(segs: seq<Segment>, r: TxRun)
    requires Loadable(segs) && |r.closed| == |segs| + 1 && ClosedAsListed(segs, r.closed)
    requires r.wire == Flatten(r.closed) + Level(r.open.low, r.open.ticks)
    ensures Productive(segs, r) == TotalTicks(segs) + 5 + r.open.ticks
  {
    FlattenLength(segs, r.closed);
    NominalTotal(segs, |segs| + 1);
    assert segs[..|segs|] == segs;
  }

  lemma OpenIsShort(segs: seq<Segment>, r: TxRun)
    requires Loadable(segs) && Inv(segs, r) && |r.closed| <= |segs|
    ensures r.open.ticks - r.open.stalls < Nominal(segs, |r.closed|)
  {
    var k := |r.closed|;
    if k > 0 {
      assert Encodable(segs[k - 1]);
    }
    if r.sm.pc == 5 || r.sm.pc == 8 {
      assert k < |segs|;
    } else if k == |segs| {
      assert Words(segs)[k] == 0;
    }
  }

  /** A channel that always offers a word. */
  ghost predicate Eager(sched: seq<nat>) {
    forall i :: 0 <= i < |sched| ==> sched[i] >= 1
  }

  ghost predicate NeverStalled(segs: seq<Segment>, r: TxRun) {
    && (forall k :: 0 <= k < |r.closed| ==> r.closed[k].stalls == 0)
    && (|r.closed| <= |segs| ==> r.open.stalls == 0)
  }

  /** With a word on offer in every tick the program never starves. */
  lemma {:induction false} EagerNeverStalls(segs: seq<Segment>, x: Word, y: Word, osr: Word, sched: seq<nat>)
    requires Loadable(segs) && Eager(sched)
    ensures NeverStalled(segs, Run(Start(Words(segs), x, y, osr), sched))
  {
    if sched != [] {
      var n := |sched| - 1;
      var q := Run(Start(Words(segs), x, y, osr), sched[..n]);
      EagerNeverStalls(segs, x, y, osr, sched[..n]);
      RunKeeps(segs, x, y, osr, sched[..n]);
      EagerTick(segs, q, sched[n]);
    }
  }

  lemma EagerFeeds(segs: seq<Segment>, q: TxRun, n: nat)
    requires Loadable(segs) && Inv(segs, q) && n >= 1 && |q.closed| <= |segs| && q.sm.pc == 0
    ensures Dma(q, n).sm.tx != []
  {
    assert |q.sm.tx + q.pending| == |Words(segs)| - |q.closed| > 0;
  }

  lemma EagerTick(segs: seq<Segment>, q: TxRun, n: nat)
    requires Loadable(segs) && Inv(segs, q) && n >= 1 && NeverStalled(segs, q)
    ensures NeverStalled(segs, Tick(q, n))
  {
    if |q.closed| <= |segs| {
      if q.sm.pc == 0 {
        EagerFeeds(segs, q, n);
      }
      assert !Starved(Dma(q, n).sm);
    } else {
      DmaKeeps(segs, q, n);
      FinishedKeeps(segs, Dma(q, n));
    }
  }

  /** The requested waveform: six idle ticks, the segments, the last one tick short. */
  function Ideal(segs: seq<Segment>, k: nat): seq<bool>
    requires Loadable(segs) && k <= |segs| + 1
  {
    if k == 0 then []
    else
      assert k > 1 ==> Encodable(segs[k - 2]);
      Ideal(segs, k - 1) + Level(LevelOf(segs, k - 1), Nominal(segs, k - 1))
  }

  lemma {:induction false} FlattenIdeal(segs: seq<Segment>, holds: seq<Hold>)
    requires Loadable(segs) && |holds| <= |segs| + 1 && ClosedAsListed(segs, holds)
    requires forall k :: 0 <= k < |holds| ==> holds[k].stalls == 0
    ensures Flatten(holds) == Ideal(segs, |holds|)
  {
    if holds != [] {
      FlattenIdeal(segs, holds[..|holds| - 1]);
      assert |holds| > 1 ==> Encodable(segs[|holds| - 2]);
    }
  }

  /** The line was the requested waveform, tick for tick, and released from then on. */
  ghost predicate AsRequested(segs: seq<Segment>, r: TxRun) {
    && Loadable(segs)
    && r.irqs == 1
    && |r.wire| >= TotalTicks(segs) + 6
    && r.wire == Ideal(segs, |segs| + 1) + Level(false, |r.wire| - TotalTicks(segs) - 5)
  }

  /** Under an eager channel IRQ0 rises in the first released tick, and the line up to
      any later tick is as requested. */
  lemma EagerIsIdeal(segs: seq<Segment>, x: Word, y: Word, osr: Word, sched: seq<nat>)
    requires Loadable(segs) && Eager(sched) && |sched| >= TotalTicks(segs) + 6
    ensures var r := Run(Start(Words(segs), x, y, osr), sched);
            AsRequested(segs, r) && |r.wire| == |sched|
  {
    WireIsHolds(segs, x, y, osr, sched);
    EagerNeverStalls(segs, x, y, osr, sched);
    TransmitsAsListed(segs, x, y, osr, sched);
    IdealWire(segs, Run(Start(Words(segs), x, y, osr), sched));
  }

  lemma IdealWire(segs: seq<Segment>, r: TxRun)
    requires Loadable(segs) && Transmitted(segs, r)
    requires NeverStalled(segs, r) && |r.wire| >= TotalTicks(segs) + 6
    ensures AsRequested(segs, r)
  {
    NoStalls(r.closed);
    FlattenIdeal(segs, r.closed);
    IdealLength(segs, r.closed);
  }

  lemma IdealLength(segs: seq<Segment>, holds: seq<Hold>)
    requires Loadable(segs) && |holds| == |segs| + 1 && ClosedAsListed(segs, holds)
    requires Stalls(holds) == 0
    ensures |Flatten(holds)| == TotalTicks(segs) + 5
  {
    FlattenLength(segs, holds);
    NominalTotal(segs, |segs| + 1);
    assert segs[..|segs|] == segs;
  }

  lemma {:induction false} NoStalls(holds: seq<Hold>)
    requires forall k :: 0 <= k < |holds| ==> holds[k].stalls == 0
    ensures Stalls(holds) == 0
  {
    if holds != [] {
      NoStalls(holds[..|holds| - 1]);
    }
  }
}
