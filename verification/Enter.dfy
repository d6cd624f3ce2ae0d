/**
Entering SWIM: the sequence of UM0470 section 3.2 as the link drives it, against any
target at all.
*/
module Enter {
  import opened BitVectors
  import opened Stm8
  import opened Target
  import opened Link
  import opened FlashLog

  const CSR_INIT: Byte := 0xA0

  datatype Stage =
    | Idle | ResetAsserted | EntrySent | Sync1Ok
    | CsrWriteStart | CsrWriteOk | CsrReadStart | CsrReadOk
    | CommResetSent | Sync2Ok | Done | Fail

  const STAGES := 13

  /** The one order in which the stages are reported. */
  function OrderAt(k: nat): Stage {
    match k
    case 0 => Stage.Idle
    case 1 => ResetAsserted
    case 2 => EntrySent
    case 3 => Sync1Ok
    case 4 => CsrWriteStart
    case 5 => CsrWriteOk
    case 6 => CsrReadStart
    case 7 => CsrReadOk
    case 8 => CommResetSent
    case 9 => Sync2Ok
    case 10 => CsrReadStart
    case 11 => CsrReadOk
    case _ => Done
  }

  /** The reported stages follow the order. */
  predicate InOrder(stages: seq<Stage>) {
    |stages| <= STAGES && forall i :: 0 <= i < |stages| ==> stages[i] == OrderAt(i)
  }

  predicate SwimDm(csr: Byte) { csr / 32 % 2 == 1 }
  predicate Stalled(csr2: Byte) { csr2 / 8 % 2 == 1 }

  /** csr2 | DM_CSR2_STALL */
  function WithStall(csr2: Byte): (v: Byte)
    ensures Stalled(v) && (v == csr2 || v == csr2 + 8)
  {
    if Stalled(csr2) then csr2 else csr2 + 8
  }

  // ----- what a successful entry has done -----

  predicate AtCsr2(e: Event) {
    (e.Read? || e.Write?) && e.address == DM_CSR2
  }

  /** The log before the accesses to DM_CSR2 at its end. */
  function BeforeStall(log: Log): Log {
    match log
    case Start => Start
    case Then(before, e) => if AtCsr2(e) then BeforeStall(before) else log
  }

  /** The reads of DM_CSR2 among them: each attempt begins with one. */
  function StallTries(log: Log): nat {
    match log
    case Start => 0
    case Then(before, e) => if AtCsr2(e) then StallTries(before) + (if e.Read? then 1 else 0) else 0
  }

  predicate StallAcked(log: Log) {
    && log.Then? && log.event.Write? && log.event.address == DM_CSR2 && log.event.status == Ok
    && |log.event.bytes| == 1 && Stalled(log.event.bytes[0])
  }

  predicate DmSeen(log: Log) {
    && log.Then? && log.event.Read? && log.event.address == SWIM_CSR && log.event.status == Ok
    && |log.event.data| == 1 && SwimDm(log.event.data[0])
  }

  predicate CsrWritten(log: Log) {
    && log.Then? && log.event.Write? && log.event.address == SWIM_CSR && log.event.status == Ok
    && log.event.bytes == [CSR_INIT]
  }

  predicate Last(log: Log, e: Event) {
    log.Then? && log.event == e
  }

  /** Reset asserted with the line free, entry sync, SWIM_CSR written and verified. */
  predicate FirstSynced(log: Log, start: Log) {
    && DmSeen(log)
    && CsrWritten(log.before)
    && Last(log.before.before, EntrySync(true))
    && Last(log.before.before.before, Nrst(true, false))
    && log.before.before.before.before == start
  }

  /** Then reset released with the line free, second sync, SWIM_CSR verified again. */
  predicate Synced(log: Log, start: Log) {
    && DmSeen(log)
    && Last(log.before, CommReset(true))
    && Last(log.before.before, Nrst(false, false))
    && FirstSynced(log.before.before.before, start)
  }

  lemma Joined(log: Log, mid: Log, start: Log)
    requires FirstSynced(mid, start) && DmSeen(log)
    requires Last(log.before, CommReset(true)) && Last(log.before.before, Nrst(false, false)) && log.before.before.before == mid
    ensures Synced(log, start) && BeforeStall(log) == log
  {
  }

  // ----- what it changes -----

  function WithByte(d: Device, a: Address, v: Byte): Device {
    d.(mem := d.mem[a := v])
  }

  /** The device after a successful entry: SWIM_CSR initialised, STALL set. */
  function Entered(d: Device): Device {
    WithByte(WithByte(d, SWIM_CSR, CSR_INIT), DM_CSR2, WithStall(d.mem[DM_CSR2]))
  }

  /** After it SWIM_CSR has SAFE_MASK and SWIM_DM set and every other bit clear, and DM_CSR2 has
      STALL set and its other bits as they were. */
  lemma EnteredBits(d: Device)
    ensures var csr := LowBits(Entered(d).mem[0x7F80], 8);
            csr == [false, false, false, false, false, true, false, true]
    ensures LowBits(Entered(d).mem[0x7F99], 8) == LowBits(d.mem[0x7F99], 8)[3 := true]
  {
    InitBits(CSR_INIT, 8);
    StallBits(d.mem[DM_CSR2], WithStall(d.mem[DM_CSR2]), 8);
  }

  lemma {:induction false} InitBits(v: Byte, n: nat)
    requires v == CSR_INIT && n == 8
    ensures LowBits(v, n) == [false, false, false, false, false, true, false, true]
  {
    InitHalf(v, n, [false, false, false, false], 10);
    InitHalf(10, n - 4, [false, true, false, true], 0);
    assert LowBits(0, 0) == [];
  }

  lemma {:induction false} InitHalf(v: nat, n: nat, bits: seq<bool>, rest: nat)
    requires n >= 4 && bits == [v % 2 == 1, v / 2 % 2 == 1, v / 4 % 2 == 1, v / 8 % 2 == 1] && rest == v / 16
    ensures LowBits(v, n) == bits + LowBits(rest, n - 4)
  {
    FourBits(v, n);
  }

  lemma {:induction false} StallBits(v: Byte, w: Byte, n: nat)
    requires w == WithStall(v) && n == 8
    ensures LowBits(w, n) == LowBits(v, n)[3 := true]
  {
    FourBits(v, n);
    FourBits(w, n);
    StallSets(v, w);
  }

  lemma {:induction false} StallSets(v: Byte, w: Byte)
    requires w == WithStall(v)
    ensures w % 2 == v % 2 && w / 2 % 2 == v / 2 % 2 && w / 4 % 2 == v / 4 % 2 && w / 8 % 2 == 1 && w / 16 == v / 16
  {
    if w != v {
      AddsEight(v, w, v / 16, v % 8);
    }
  }

  /** Bit 3 set where it was clear, from the four bits above it and the three below. */
  lemma {:induction false} AddsEight(v: Byte, w: Byte, h: nat, l: nat)
    requires !Stalled(v) && w == v + 8 && h == v / 16 && l == v % 8
    ensures w % 2 == v % 2 && w / 2 % 2 == v / 2 % 2 && w / 4 % 2 == v / 4 % 2 && w / 8 % 2 == 1 && w / 16 == v / 16
  {
    assert v == 16 * h + l && l < 8;
    assert w / 8 == 2 * h + 1;
    assert v / 4 == 4 * h + l / 4 && w / 4 == 4 * h + 2 + l / 4;
    assert v / 2 == 8 * h + l / 2 && w / 2 == 8 * h + 4 + l / 2;
  }

  lemma {:induction false} FourBits(v: nat, n: nat)
    requires n >= 4
    ensures LowBits(v, n) == [v % 2 == 1, v / 2 % 2 == 1, v / 4 % 2 == 1, v / 8 % 2 == 1] + LowBits(v / 16, n - 4)
  {
    assert LowBits(v, n) == [v % 2 == 1] + LowBits(v / 2, n - 1);
    assert LowBits(v / 2, n - 1) == [v / 2 % 2 == 1] + LowBits(v / 2 / 2, n - 2);
    assert v / 2 / 2 == v / 4 && v / 4 / 2 == v / 8 && v / 8 / 2 == v / 16;
    assert LowBits(v / 4, n - 2) == [v / 4 % 2 == 1] + LowBits(v / 8, n - 3);
    assert LowBits(v / 8, n - 3) == [v / 8 % 2 == 1] + LowBits(v / 16, n - 4);
  }

  lemma EnteredTwice(d: Device)
    ensures var e := WithByte(d, SWIM_CSR, CSR_INIT);
            SwimDm(e.mem[SWIM_CSR]) && WithByte(e, DM_CSR2, WithStall(e.mem[DM_CSR2])) == Entered(d)
  {
  }

  lemma OnePlain(d: Device, a: Address, v: Byte)
    requires Plain(a)
    ensures WriteAll(STM8, d, a, [v]) == WithByte(d, a, v)
    ensures ReadAll(STM8, d, a, 1) == ([d.mem[a]], d)
  {
    SingleAccess(STM8, d, a, v);
    PlainAccess(d, a, v);
  }

  /** At most the two debug registers have changed, and no work in the flash was started. */
  ghost predicate OnlyDebug(m: Machine, t: Target, u: Target) {
    && u.Conforming? == t.Conforming?
    && (m == STM8 && t.Conforming? ==>
          && u.dev == t.dev.(mem := u.dev.mem)
          && forall a: Address :: a != SWIM_CSR && a != DM_CSR2 ==> u.dev.mem[a] == t.dev.mem[a])
  }

  lemma {:induction false} DebugWrite(m: Machine, t: Target, u: Target, a: Address, v: Byte, taken: nat)
    requires (a == SWIM_CSR || a == DM_CSR2) && taken <= 1 && u.Conforming? == t.Conforming?
    requires t.Conforming? ==> u.dev == WriteAll(m, t.dev, a, [v][..taken])
    ensures OnlyDebug(m, t, u)
  {
    if t.Conforming? {
      SingleAccess(m, t.dev, a, v);
      OnePlain(t.dev, a, v);
      assert [v][..taken] == if taken == 0 then [] else [v];
    }
  }

  lemma DebugRead(m: Machine, t: Target, u: Target, a: Address, taken: nat)
    requires (a == SWIM_CSR || a == DM_CSR2) && taken <= 1 && u.Conforming? == t.Conforming?
    requires t.Conforming? ==> u.dev == ReadAll(m, t.dev, a, taken).1
    ensures OnlyDebug(m, t, u)
  {
    if t.Conforming? {
      SingleAccess(m, t.dev, a, 0);
      OnePlain(t.dev, a, 0);
    }
  }

  class Session {
    const link: SwimLink
    var stage: Stage
    ghost var stages: seq<Stage>

    constructor (link: SwimLink)
      ensures this.link == link && stages == []
    {
      this.link, stage, stages := link, Stage.Idle, [];
    }

    /** No fault is to come, and every synchronisation frame is measured. */
    ghost predicate Undisturbed()
      reads link
    {
      link.m == STM8 && link.syncs == [] && Clear(link.target)
    }

    /** And the clock is known. */
    ghost predicate Synchronised()
      reads link
    {
      Undisturbed() && link.ready && link.low
    }

    method SetStage(s: Stage)
      modifies this
      ensures stages == old(stages) + [s] && stage == s
    {
      stage, stages := s, stages + [s];
    }

    /** The write of SWIM_CSR and its stages. */
    method InitSwimCsr() returns (st: Status)
      requires InOrder(stages) && |stages| == 4
      modifies this, link`target, link`pad, link`log
      ensures InOrder(stages) && |stages| == (if st == Ok then 6 else 5) && Eased(link.pad, old(link.pad))
      ensures st == Ok ==> CsrWritten(link.log) && link.log.before == old(link.log)
      ensures old(Synchronised()) ==>
                && st == Ok && Synchronised()
                && link.target.dev == WithByte(old(link.target).dev, SWIM_CSR, CSR_INIT)
      ensures OnlyDebug(link.m, old(link.target), link.target) && SameTriggers(link.log, old(link.log))
    {
      SetStage(CsrWriteStart);
      ghost var before, n := link.target, 0;
      st, n := link.Write(SWIM_CSR, [CSR_INIT]);
      DebugWrite(link.m, before, link.target, SWIM_CSR, CSR_INIT, n);
      if st != Ok {
        return;
      }
      if before.Conforming? {
        OnePlain(before.dev, SWIM_CSR, CSR_INIT);
      }
      SetStage(CsrWriteOk);
    }

    /** A read of one of the two debug registers. */
    method ReadDebug(a: Address) returns (st: Status, data: seq<Byte>)
      requires a == SWIM_CSR || a == DM_CSR2
      modifies link`target, link`pad, link`log
      ensures ReadOnce(link.log, old(link.log), a, 1, st, data) && Eased(link.pad, old(link.pad))
      ensures st == Ok ==> |data| == 1 && Freed(link.pad)
      ensures old(Synchronised()) ==>
                && st == Ok && Synchronised()
                && link.target.dev == old(link.target).dev && data == [link.target.dev.mem[a]]
      ensures OnlyDebug(link.m, old(link.target), link.target)
    {
      ghost var before, n := link.target, 0;
      st, data, n := link.Read(a, 1);
      DebugRead(link.m, before, link.target, a, n);
      if before.Conforming? {
        OnePlain(before.dev, a, 0);
      }
    }

    /** The read-back and its stages. */
    method VerifySwimCsr() returns (st: Status)
      requires InOrder(stages) && (|stages| == 6 || |stages| == 10)
      modifies this, link`target, link`pad, link`log
      ensures InOrder(stages) && |stages| <= old(|stages|) + 2 && Eased(link.pad, old(link.pad))
      ensures st == Ok ==>
                && |stages| == old(|stages|) + 2 && Freed(link.pad)
                && DmSeen(link.log) && link.log.before == old(link.log)
      ensures old(Synchronised()) && SwimDm(old(link.target).dev.mem[SWIM_CSR]) ==>
                st == Ok && Synchronised() && link.target.dev == old(link.target).dev
      ensures OnlyDebug(link.m, old(link.target), link.target) && SameTriggers(link.log, old(link.log))
    {
      SetStage(CsrReadStart);
      var data;
      st, data := ReadDebug(SWIM_CSR);
      if st != Ok {
        return;
      }
      SetStage(CsrReadOk);
      return if SwimDm(data[0]) then Ok else TargetError;
    }

    /** swim_link_handle_swim_csr */
    method HandleSwimCsr(writeInit: bool) returns (st: Status)
      requires InOrder(stages) && |stages| == if writeInit then 4 else 10
      modifies this, link`target, link`pad, link`log
      ensures InOrder(stages) && Eased(link.pad, old(link.pad))
      ensures st == Ok ==> DmSeen(link.log) && (|stages| == if writeInit then 8 else 12) && Freed(link.pad)
      ensures st == Ok && writeInit ==> CsrWritten(link.log.before) && link.log.before.before == old(link.log)
      ensures st == Ok && !writeInit ==> link.log.before == old(link.log)
      ensures st != Ok ==> |stages| < STAGES
      ensures old(Synchronised()) && (writeInit || SwimDm(old(link.target).dev.mem[SWIM_CSR])) ==>
                && st == Ok && Synchronised()
                && link.target.dev == if writeInit then WithByte(old(link.target).dev, SWIM_CSR, CSR_INIT)
                                      else old(link.target).dev
      ensures OnlyDebug(link.m, old(link.target), link.target) && SameTriggers(link.log, old(link.log))
    {
      if writeInit {
        st := InitSwimCsr();
        if st != Ok {
          return;
        }
      }
      st := VerifySwimCsr();
    }

    /** swim_link_release_reset_and_resync */
    method ReleaseResetAndResync() returns (st: Status)
      requires InOrder(stages) && |stages| == 8
      modifies this, link
      ensures !link.nrst && InOrder(stages) && Eased(link.pad, old(link.pad))
      ensures st == Ok ==>
                && |stages| == 10 && link.low
                && Last(link.log, CommReset(true)) && Last(link.log.before, Nrst(false, Held(old(link.pad))))
                && link.log.before.before == old(link.log)
      ensures st != Ok ==> |stages| < STAGES
      ensures old(Undisturbed()) ==> st == Ok && Synchronised() && link.target.dev == old(link.target).dev
      ensures OnlyDebug(link.m, old(link.target), link.target) && SameTriggers(link.log, old(link.log))
    {
      link.SetNrst(false);
      SetStage(CommResetSent);
      var ok := link.CommResetWaitSync();
      if !ok {
        return Timeout;
      }
      SetStage(Sync2Ok);
      return Ok;
    }

    /** One attempt of the three. */
    method StallOnce() returns (st: Status)
      modifies link`target, link`pad, link`log
      ensures BeforeStall(link.log) == BeforeStall(old(link.log)) && StallTries(link.log) == StallTries(old(link.log)) + 1
      ensures Eased(link.pad, old(link.pad))
      ensures st == Ok ==> StallAcked(link.log) && Freed(link.pad)
      ensures st == Ok && link.m == STM8 && link.target.Conforming? ==> Stalled(link.target.dev.mem[DM_CSR2])
      ensures old(Synchronised()) ==>
                && st == Ok && Synchronised()
                && var d := old(link.target).dev; link.target.dev == WithByte(d, DM_CSR2, WithStall(d.mem[DM_CSR2]))
      ensures OnlyDebug(link.m, old(link.target), link.target) && SameTriggers(link.log, old(link.log))
    {
      var data;
      st, data := ReadDebug(DM_CSR2);
      if st != Ok {
        return;
      }
      ghost var before, n := link.target, 0;
      st, n := link.Write(DM_CSR2, [WithStall(data[0])]);
      DebugWrite(link.m, before, link.target, DM_CSR2, WithStall(data[0]), n);
      if before.Conforming? {
        OnePlain(before.dev, DM_CSR2, WithStall(data[0]));
      }
    }

    /** swim_link_stall_target: up to three attempts. */
    method StallTarget() returns (st: Status)
      modifies link`target, link`pad, link`log
      ensures BeforeStall(link.log) == BeforeStall(old(link.log))
      ensures var tries := StallTries(link.log) - StallTries(old(link.log)); 1 <= tries <= 3 && (st != Ok ==> tries == 3)
      ensures Eased(link.pad, old(link.pad))
      ensures st == Ok || st == Timeout
      ensures st == Ok ==> StallAcked(link.log) && Freed(link.pad)
      ensures st == Ok && link.m == STM8 && link.target.Conforming? ==> Stalled(link.target.dev.mem[DM_CSR2])
      ensures old(Synchronised()) ==>
                && st == Ok && Synchronised()
                && var d := old(link.target).dev; link.target.dev == WithByte(d, DM_CSR2, WithStall(d.mem[DM_CSR2]))
      ensures OnlyDebug(link.m, old(link.target), link.target) && SameTriggers(link.log, old(link.log))
    {
      for attempt := 0 to 3
        invariant BeforeStall(link.log) == BeforeStall(old(link.log))
        invariant StallTries(link.log) == StallTries(old(link.log)) + attempt
        invariant Eased(link.pad, old(link.pad))
        invariant OnlyDebug(link.m, old(link.target), link.target) && SameTriggers(link.log, old(link.log))
        invariant attempt == 0 ==> link.target == old(link.target)
        invariant attempt > 0 ==> !old(Synchronised())
      {
        st := StallOnce();
        if st == Ok {
          return;
        }
      }
      return Timeout;
    }

    /** The part of the sequence in which reset is held. */
    method EnterInReset() returns (st: Status)
      requires stages == [Stage.Idle] && Freed(link.pad)
      modifies this, link
      ensures InOrder(stages) && Eased(link.pad, old(link.pad))
      ensures st == Ok ==> |stages| == 8 && FirstSynced(link.log, old(link.log)) && Freed(link.pad)
      ensures st != Ok ==> |stages| < STAGES
      ensures old(Undisturbed()) ==>
                st == Ok && Synchronised() && link.target.dev == WithByte(old(link.target).dev, SWIM_CSR, CSR_INIT)
      ensures OnlyDebug(link.m, old(link.target), link.target) && SameTriggers(link.log, old(link.log))
    {
      link.SetNrst(true);
      SetStage(ResetAsserted);
      var ok := link.EntryWaitSync();
      assert OnlyDebug(link.m, old(link.target), link.target) && SameTriggers(link.log, old(link.log)) by {
        assert SameTriggers(link.log.before, old(link.log));
      }
      if !ok {
        return Timeout;
      }
      SetStage(EntrySent);
      SetStage(Sync1Ok);
      st := HandleSwimCsr(true);
    }

    /** The part after it, up to the stall. */
    method EnterAfterReset() returns (st: Status)
      requires InOrder(stages) && |stages| == 8 && Freed(link.pad)
      modifies this, link
      ensures InOrder(stages) && Eased(link.pad, old(link.pad))
      ensures st == Ok ==>
                && |stages| == 12 && !link.nrst && link.low && Freed(link.pad)
                && DmSeen(link.log) && Last(link.log.before, CommReset(true)) && Last(link.log.before.before, Nrst(false, false))
                && link.log.before.before.before == old(link.log)
      ensures st != Ok ==> |stages| < STAGES
      ensures old(Synchronised()) && SwimDm(old(link.target).dev.mem[SWIM_CSR])
          ==> st == Ok && Synchronised() && link.target.dev == old(link.target).dev
      ensures OnlyDebug(link.m, old(link.target), link.target) && SameTriggers(link.log, old(link.log))
    {
      st := ReleaseResetAndResync();
      if st == Ok {
        st := HandleSwimCsr(false);
      }
    }

    /** The sequence up to the stall. */
    method EnterCalibrated() returns (st: Status)
      requires stages == [Stage.Idle] && Freed(link.pad)
      modifies this, link
      ensures InOrder(stages) && Eased(link.pad, old(link.pad))
      ensures st == Ok ==>
                && |stages| == 12 && !link.nrst && link.low && Freed(link.pad)
                && Synced(link.log, old(link.log)) && BeforeStall(link.log) == link.log
      ensures st != Ok ==> |stages| < STAGES
      ensures old(Undisturbed())
          ==> st == Ok && Synchronised() && link.target.dev == WithByte(old(link.target).dev, SWIM_CSR, CSR_INIT)
      ensures OnlyDebug(link.m, old(link.target), link.target) && SameTriggers(link.log, old(link.log))
    {
      st := EnterInReset();
      if st == Ok {
        ghost var log := link.log;
        st := EnterAfterReset();
        if st == Ok {
          Joined(link.log, log, old(link.log));
        }
      }
    }

    /** The sequence from the assertion of reset to the stall. */
    method EnterSteps() returns (st: Status)
      requires stages == [Stage.Idle] && Freed(link.pad)
      modifies this, link
      ensures InOrder(stages) && Eased(link.pad, old(link.pad))
      ensures st == Ok ==>
                && |stages| == STAGES && !link.nrst && link.low && Freed(link.pad)
                && StallAcked(link.log) && Synced(BeforeStall(link.log), old(link.log))
                && (link.m == STM8 && link.target.Conforming? ==> Stalled(link.target.dev.mem[DM_CSR2]))
      ensures st != Ok ==> |stages| < STAGES
      ensures old(Undisturbed()) ==> st == Ok && Synchronised() && link.target.dev == Entered(old(link.target).dev)
      ensures OnlyDebug(link.m, old(link.target), link.target) && SameTriggers(link.log, old(link.log))
    {
      ghost var before := link.target;
      st := EnterCalibrated();
      if st != Ok {
        return;
      }
      if before.Conforming? {
        EnteredTwice(before.dev);
      }
      st := StallTarget();
      if st == Ok {
        SetStage(Done);
      }
    }

    /** swim_link_enter: whatever the target does, the stages are those of the one order up
        to some point, closed by FAIL unless it is complete; reset is released and the SWIM
        pad is back with the processor as an input, PIO's output being off unless it was on.
        On an undisturbed target it succeeds and changes two registers. The low speed is
        always accepted, so the UNSUPPORTED exit is never taken. */
    method Enter() returns (st: Status)
      requires stages == []
      modifies this, link
      ensures !link.nrst && Freed(link.pad) && Eased(link.pad, old(link.pad))
      ensures st == Ok ==>
                && InOrder(stages) && |stages| == STAGES && link.low
                && StallAcked(link.log) && Synced(BeforeStall(link.log), old(link.log))
                && (link.m == STM8 && link.target.Conforming? ==> Stalled(link.target.dev.mem[DM_CSR2]))
      ensures st != Ok ==> 0 < |stages| <= STAGES && InOrder(stages[..|stages| - 1]) && stages[|stages| - 1] == Fail
      ensures old(Undisturbed()) ==> st == Ok && Synchronised() && link.target.dev == Entered(old(link.target).dev)
      ensures OnlyDebug(link.m, old(link.target), link.target) && SameTriggers(link.log, old(link.log))
    {
      link.ResetTiming();
      SetStage(Stage.Idle);
      var ok := link.SetSpeed(false);
      assert ok;
      link.Release();
      st := EnterSteps();
      if st != Ok {
        SetStage(Fail);
        link.Release();
        link.SetNrst(false);
      }
    }
  }
}
