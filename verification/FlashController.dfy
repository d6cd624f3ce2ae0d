/**
What the flash driver's accesses do to the flash controller.
*/
module FlashController {
  import opened BitVectors
  import opened Stm8

  /** The device once its high-voltage work is done and IAPSR has been read. */
  function Settled(d: Device): Device {
    d.(mem := Landed(d.mem, d.work), work := Quiet, eop := false, refused := false)
  }

  /** What a poll of IAPSR that took the device from `d` to `e` told. */
  predicate IapsrSays(d: Device, e: Device, v: Byte) {
    && (Eop(v) || HvOff(v) ==> e == Settled(d))
    && (d.work.Quiet? ==> e == Settled(d))
    && (HvOff(v) || (d.work.Busy? && e.work.Busy? && e.work.polls + 1 == d.work.polls))
    && (Eop(v) ==> HvOff(v)) && (HvOff(v) ==> d.work.Quiet? || d.work.polls == 0)
    && WrPgDis(v) == d.refused && Pul(v) == d.pul && Dul(v) == d.dul && !e.refused
  }

  lemma ProgressSettles(d: Device)
    ensures Settled(Progress(d)) == Settled(d)
    ensures Progress(d).work.Quiet? ==> Progress(d).(eop := false, refused := false) == Settled(d)
    ensures Progress(d).refused == d.refused && Progress(d).pul == d.pul && Progress(d).dul == d.dul
  {
  }

  /** Polling IAPSR only brings the device closer to where it settles, and a poll that
      shows EOP or HVOFF shows that it has settled. */
  lemma PollSettles(d: Device)
    ensures var (v, e) := ReadByte(d, IAPSR);
            Settled(e) == Settled(d) && IapsrSays(d, e, v)
  {
    IapsrFlags(Progress(d));
    ProgressSettles(d);
  }

  const WAIT_POLLS := 2000

  /** A quiet, unlocked controller that has refused nothing. */
  predicate Ready(d: Device) {
    d.work.Quiet? && d.pul && !d.refused
  }

  /** No operation, under way or to come, outlasts the driver's polling. */
  predicate Prompt(d: Device) {
    && (d.work.Busy? ==> d.work.polls < WAIT_POLLS)
    && forall i :: 0 <= i < |d.delays| ==> d.delays[i] < WAIT_POLLS
  }

  /** What is left of the operations to come after `n` of them. */
  function Drop(delays: seq<nat>, n: nat): seq<nat> {
    if n <= |delays| then delays[n..] else []
  }

  /** One of the next `n` operations outlasts the driver's polling. */
  predicate Outlasts(delays: seq<nat>, n: nat) {
    exists k :: 0 <= k < n && k < |delays| && delays[k] >= WAIT_POLLS
  }

  lemma OutlastsMore(delays: seq<nat>, n: nat)
    ensures Outlasts(delays, n + 1) <==> Outlasts(delays, n) || Outlasts(Drop(delays, n), 1)
    ensures Drop(Drop(delays, n), 1) == Drop(delays, n + 1)
  {
    if n < |delays| && delays[n] >= WAIT_POLLS {
      assert Drop(delays, n)[0] >= WAIT_POLLS;
    }
    if Outlasts(Drop(delays, n), 1) {
      assert delays[n] >= WAIT_POLLS;
    }
  }

  lemma StaysPrompt(d: Device, at: nat, bytes: seq<Byte>)
    requires Prompt(d)
    ensures Prompt(Start(d, at, bytes)) && Prompt(Settled(d)) && Prompt(ReadByte(d, IAPSR).1)
  {
  }

  lemma ProgramPrompt(d: Device, a: Address, v: Byte)
    requires Prompt(d)
    ensures Prompt(ProgramWrite(d, a, v))
  {
    StaysPrompt(d, a - a % ROW, Zeros(ROW));
    StaysPrompt(d, a, [if d.mem[a] == 0 then v else d.residue]);
  }

  lemma OptionWritePrompt(d: Device, a: Address, v: Byte)
    requires Prompt(d)
    ensures Prompt(OptionWrite(d, a, v))
  {
    StaysPrompt(d, a, [v]);
  }

  lemma WritePrompt(d: Device, a: Address, v: Byte)
    requires Prompt(d)
    ensures Prompt(WriteByte(d, a, v))
  {
    ProgramPrompt(d, a, v);
    OptionWritePrompt(d, a, v);
  }

  lemma ReadPrompt(d: Device, a: Address)
    requires Prompt(d)
    ensures Prompt(ReadByte(d, a).1)
  {
    StaysPrompt(d, 0, []);
  }

  /** Any run of accesses leaves the controller prompt. */
  lemma {:induction false} AccessesPrompt(m: Machine, d: Device, a: nat, n: nat, data: seq<Byte>)
    requires Prompt(d)
    requires forall e, x, v :: Prompt(e) ==> Prompt(m.write(e, x, v))
    requires forall e, x :: Prompt(e) ==> Prompt(m.read(e, x).1)
    ensures Prompt(ReadAll(m, d, a, n).1)
    ensures Prompt(WriteAll(m, d, a, data))
    decreases n + |data|
  {
    if n > 0 {
      AccessesPrompt(m, d, a, n - 1, data);
    }
    if data != [] {
      AccessesPrompt(m, d, a, n, data[..|data| - 1]);
    }
  }

  lemma {:induction false} StaysPromptAlways(d: Device, a: nat, n: nat, data: seq<Byte>)
    requires Prompt(d)
    ensures Prompt(ReadAll(STM8, d, a, n).1) && Prompt(WriteAll(STM8, d, a, data))
  {
    forall e: Device, x: Address, v: Byte | Prompt(e) ensures Prompt(STM8.write(e, x, v)) {
      WritePrompt(e, x, v);
    }
    forall e: Device, x: Address | Prompt(e) ensures Prompt(STM8.read(e, x).1) {
      ReadPrompt(e, x);
    }
    AccessesPrompt(STM8, d, a, n, data);
  }

  // ----- block erase -----

  /** A block that takes part in an erase lies wholly in the program flash. */
  predicate ProgramBlock(base: nat) {
    base % BLOCK == 0 && FLASH_START <= base && base + BLOCK <= FLASH_START + FLASH_SIZE
  }

  /** The device after the first `n` writes of a block erase sequence. */
  function Latch(d: Device, base: nat, n: nat): Device {
    if n == BLOCK then Start(d, base, Zeros(BLOCK)) else d.(latched := Upto(base, n))
  }

  /** Zeros written to every location of a block, in order, start the erase of that block. */
  lemma EraseSequence(d: Device, base: nat)
    requires ProgramBlock(base) && d.pul && d.work.Quiet? && Mode(d, MODE_ERASE) && d.latched == {}
    ensures WriteAll(STM8, d, base, Zeros(BLOCK)) == Start(d, base, Zeros(BLOCK))
  {
    forall n | 0 <= n < BLOCK ensures STM8.write(Latch(d, base, n), At(base + n), 0) == Latch(d, base, n + 1) {
      EraseStep(d, base, n, At(base + n));
    }
    assert Latch(d, base, 0) == d;
    ZerosWritten(STM8, d, base, BLOCK);
  }

  /** Ready for the erase sequence of a block. */
  predicate Erasable(d: Device, base: nat) {
    ProgramBlock(base) && d.pul && d.work.Quiet? && Mode(d, MODE_ERASE) && d.latched == {} && !d.refused
  }

  lemma EraseStarts(d: Device, base: nat)
    requires Erasable(d, base) && Prompt(d)
    ensures var e := WriteAll(STM8, d, base, Zeros(BLOCK));
            Prompt(e) && !e.refused && Ready(Settled(e))
  {
    EraseSequence(d, base);
    StaysPrompt(d, base, Zeros(BLOCK));
  }

  lemma {:induction false} ZerosWritten(m: Machine, d: Device, base: nat, n: nat)
    requires forall k :: 0 <= k < n ==> m.write(Latch(d, base, k), At(base + k), 0) == Latch(d, base, k + 1)
    requires Latch(d, base, 0) == d
    ensures WriteAll(m, d, base, Zeros(n)) == Latch(d, base, n)
    decreases n
  {
    if n == 0 {
      assert Zeros(0) == [];
    } else {
      ZerosWritten(m, d, base, n - 1);
      assert Zeros(n) == Zeros(n - 1) + [0];
      WriteNext(m, d, base, Zeros(n - 1), 0);
    }
  }

  lemma EraseStep(d: Device, base: nat, n: nat, a: Address)
    requires ProgramBlock(base) && n < BLOCK && a == At(base + n)
    requires d.pul && d.work.Quiet? && Mode(d, MODE_ERASE)
    ensures WriteByte(Latch(d, base, n), a, 0) == Latch(d, base, n + 1)
  {
    var e := d.(latched := Upto(base, n));
    assert a == base + n && a - a % ROW == base;
    ModesSelect(d);
    UptoHolds(base, n + 1, base + BLOCK - 1);
    UptoHolds(base, BLOCK, base + BLOCK - 1);
    assert Upto(base, n) + {base + n} == Upto(base, n + 1);
    assert InProgram(a);
    assert WriteByte(e, a, 0) == ProgramWrite(e, a, 0);
  }

  /** Work that has started ends with its bytes in memory and nothing else changed. */
  lemma WorkSettles(d: Device, at: nat, bytes: seq<Byte>)
    requires at + |bytes| <= SPACE
    ensures var e := Settled(Start(d, at, bytes));
            e == d.(mem := Stored(d.mem, at, bytes), work := Quiet, eop := false, refused := false,
                    latched := {}, delays := e.delays)
  {
  }

  // ----- byte programming -----

  lemma StoredOne(mem: Memory, a: Address, v: Byte)
    ensures Stored(mem, a, [v]) == mem[a := v]
  {
  }

  lemma ProgramStarts(d: Device, a: Address, v: Byte)
    requires InProgram(a) && d.pul && d.work.Quiet? && Mode(d, MODE_PRG) && d.mem[a] == 0
    ensures WriteByte(d, a, v) == Start(d, a, [v])
  {
    ModesSelect(d);
  }

  lemma OptionStarts(d: Device, a: Address, v: Byte)
    requires InOption(a) && d.dul && d.work.Quiet? && Mode(d, MODE_OPT)
    ensures WriteByte(d, a, v) == Start(d, a, [v])
  {
    ModesSelect(d);
  }

  // ----- what a driver call may change -----

  /** CR2, its complement and the erase latch aside, nothing has changed. */
  predicate OnlyMode(d: Device, e: Device) {
    e == d.(cr2 := e.cr2, ncr2 := e.ncr2, latched := e.latched)
  }

  function ModeWritten(d: Device, register: nat, v: Byte): Device {
    if register == CR2 then d.(cr2 := v, latched := {}) else d.(ncr2 := v, latched := {})
  }

  function InMode(d: Device, mode: Byte): Device {
    d.(cr2 := mode, ncr2 := 255 - mode, latched := {})
  }

  lemma ModePair(d: Device, e: Device, f: Device, v: Byte)
    requires OnlyMode(d, e) && OnlyMode(e, f)
    ensures OnlyMode(d, f)
    ensures e == ModeWritten(d, CR2, v) && f == ModeWritten(e, NCR2, 255 - v) ==> f == InMode(d, v)
  {
  }

  /** The memory is now `mem`, the controller is quiet, and only its working state differs. */
  predicate Reached(d: Device, e: Device, mem: Memory) {
    && e.mem == mem && e.work.Quiet?
    && e == d.(mem := mem, work := Quiet, cr2 := e.cr2, ncr2 := e.ncr2, eop := e.eop, refused := e.refused,
               latched := e.latched, delays := e.delays)
  }

  /** Work started in some mode, awaited, and the mode left. */
  lemma WorkReached(d: Device, mode: Byte, at: nat, bytes: seq<Byte>, back: Byte)
    requires at + |bytes| <= SPACE && d.work.Quiet?
    ensures Reached(d, InMode(Settled(Start(InMode(d, mode), at, bytes)), back), Stored(d.mem, at, bytes))
  {
    WorkSettles(InMode(d, mode), at, bytes);
  }

  lemma QuietReached(d: Device)
    requires d.work.Quiet?
    ensures Reached(d, Settled(d), d.mem)
  {
  }

  /** One more block of zeros. */
  lemma StoredMore(mem: Memory, a: nat, n: nat, k: nat)
    requires a + n + k <= SPACE
    ensures Stored(Stored(mem, a, Zeros(n)), a + n, Zeros(k)) == Stored(mem, a, Zeros(n + k))
  {
    assert Zeros(n + k) == Zeros(n) + Zeros(k);
  }

  lemma StoredNoZeros(mem: Memory, a: nat)
    requires a <= SPACE
    ensures Stored(mem, a, Zeros(0)) == mem
  {
  }

  // ----- a run of programmed bytes -----

  /** The bytes are programmed where the flash is erased. */
  predicate ErasedCells(d: Device, address: nat, n: nat) {
    && FLASH_START <= address && address + n <= FLASH_START + FLASH_SIZE
    && forall i :: address <= i < address + n ==> d.mem[i] == 0
  }

  /** In programming mode, with the first `i` bytes in memory. */
  predicate Programmed(d: Device, e: Device, address: nat, data: seq<Byte>, i: nat)
    requires ErasedCells(d, address, |data|) && i <= |data|
  {
    e.pul && Mode(e, MODE_PRG) && Reached(d, e, Stored(d.mem, address, data[..i]))
  }

  lemma StoredBeyond(mem: Memory, address: nat, data: seq<Byte>, a: nat)
    requires address + |data| <= a < SPACE
    ensures Stored(mem, address, data)[a] == mem[a]
  {
  }

  /** The next byte in memory; a zero is there already. */
  lemma NextStored(d: Device, address: nat, data: seq<Byte>, i: nat)
    requires ErasedCells(d, address, |data|) && i < |data|
    ensures var mem := Stored(d.mem, address, data[..i]);
            && mem[address + i] == 0
            && Stored(d.mem, address, data[..i + 1]) == mem[address + i := data[i]]
  {
    StoredBeyond(d.mem, address, data[..i], address + i);
    assert data[..i + 1][..i] == data[..i];
    StoredNext(d.mem, address, data[..i + 1]);
  }

  lemma ZeroSkipped(d: Device, e: Device, address: nat, data: seq<Byte>, i: nat)
    requires ErasedCells(d, address, |data|) && i < |data| && data[i] == 0
    requires Programmed(d, e, address, data, i)
    ensures Programmed(d, e, address, data, i + 1)
  {
    NextStored(d, address, data, i);
    var mem := Stored(d.mem, address, data[..i]);
    assert mem[address + i := 0] == mem;
  }

  lemma ByteProgrammed(d: Device, e: Device, address: nat, data: seq<Byte>, i: nat, a: Address)
    requires ErasedCells(d, address, |data|) && i < |data| && a == address + i
    requires Programmed(d, e, address, data, i)
    ensures Programmed(d, Settled(WriteByte(e, a, data[i])), address, data, i + 1)
  {
    NextStored(d, address, data, i);
    ProgramStarts(e, a, data[i]);
    WorkSettles(e, a, [data[i]]);
    StoredOne(e.mem, a, data[i]);
  }

  lemma StartsProgrammed(d: Device, address: nat, data: seq<Byte>)
    requires ErasedCells(d, address, |data|) && d.work.Quiet? && d.pul
    ensures Programmed(d, InMode(Settled(d), MODE_PRG), address, data, 0)
  {
    assert data[..0] == [];
    StoredNone(d.mem, address);
  }

  lemma EndsProgrammed(d: Device, e: Device, address: nat, data: seq<Byte>)
    requires ErasedCells(d, address, |data|) && Programmed(d, e, address, data, |data|)
    ensures Reached(d, InMode(e, 0), Stored(d.mem, address, data))
  {
    assert data[..|data|] == data;
  }

  /** Ready to program a byte. */
  predicate Programmable(d: Device, a: nat) {
    InProgram(a) && Ready(d) && Mode(d, MODE_PRG)
  }

  lemma ByteStarts(d: Device, a: Address, v: Byte)
    requires Programmable(d, a)
    ensures var e := WriteByte(d, a, v);
            && e.work.Busy? && (e.work.polls >= WAIT_POLLS <==> Outlasts(d.delays, 1)) && e.delays == Drop(d.delays, 1)
            && !e.refused && Ready(Settled(e)) && Mode(Settled(e), MODE_PRG)
  {
    ModesSelect(d);
    var w := if d.mem[a] == 0 then v else d.residue;
    assert WriteByte(d, a, v) == Start(d, a, [w]);
    if d.delays != [] && d.delays[0] >= WAIT_POLLS {
      assert Outlasts(d.delays, 1);
    }
  }

  // ----- option bytes -----

  /** The option area has been unlocked, or was. */
  predicate Opened(d: Device, e: Device) {
    e == d.(dul := e.dul, dukr := e.dukr, eop := e.eop, refused := e.refused)
  }

  /** The option byte is in memory; only the working state and the unlocking differ besides. */
  predicate OptionStored(d: Device, e: Device, a: Address, v: Byte) {
    && e.mem == d.mem[a := v] && e.work.Quiet? && e.dul
    && e == d.(mem := e.mem, work := Quiet, dul := true, dukr := e.dukr, cr2 := e.cr2, ncr2 := e.ncr2,
               eop := e.eop, refused := e.refused, latched := e.latched, delays := e.delays)
  }

  lemma KeyOpens(d: Device, v: Byte)
    ensures Opened(d, WriteByte(d, DUKR, v))
  {
  }

  /** A quiet controller whose option area is unlocked, or can be. */
  predicate Openable(d: Device) {
    d.work.Quiet? && !d.refused && (d.dul || d.dukr == Expecting)
  }

  /** The two keys, in their order, unlock the option area. */
  lemma KeysOpen(d: Device)
    requires Openable(d) && !d.dul
    ensures var e := WriteByte(WriteByte(d, DUKR, 0xAE), DUKR, 0x56);
            e.dul && Openable(e)
  {
  }

  /** Ready for an option byte. */
  predicate OptionReady(d: Device) {
    d.dul && d.work.Quiet? && Mode(d, MODE_OPT) && !d.refused
  }

  lemma OptionPrompt(d: Device, a: Address, v: Byte)
    requires Prompt(d) && InOption(a) && OptionReady(d)
    ensures Prompt(WriteByte(d, a, v)) && !WriteByte(d, a, v).refused
  {
    OptionStarts(d, a, v);
    StaysPrompt(d, a, [v]);
  }

  lemma SettledOpened(d: Device)
    requires d.work.Quiet?
    ensures Opened(d, Settled(d))
  {
  }

  lemma OptionReached(d: Device, e: Device, a: Address, v: Byte)
    requires d.work.Quiet? && Opened(d, e) && e.dul && InOption(a)
    ensures OptionStored(d, InMode(Settled(WriteByte(InMode(e, MODE_OPT), a, v)), 0), a, v)
  {
    OptionStarts(InMode(e, MODE_OPT), a, v);
    WorkSettles(InMode(e, MODE_OPT), a, [v]);
    StoredOne(e.mem, a, v);
  }
}
