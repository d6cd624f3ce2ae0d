/**
The STM8 behind the SWIM interface: a byte memory, and the flash controller's registers
as the flash driver's comments and RM0016 section 4.8 describe them. An access may have
side effects, so a read also returns the next state.
*/
module Stm8 {
  import opened BitVectors

  const SPACE := 0x100_0000

  type Memory = m: seq<Byte> | |m| == SPACE
    ghost witness seq(SPACE, _ => 0)

  type Address = a: nat | a < SPACE

  /** The address counter has 24 bits. */
  function At(a: nat): Address {
    if a < SPACE then a else At(a - SPACE)
  }

  lemma {:induction false} AtIsLow(a: nat)
    ensures At(a) == a % SPACE
    decreases a
  {
    if a >= SPACE {
      AtIsLow(a - SPACE);
    }
  }

  lemma ModSum(a: nat, n: nat)
    ensures (a + n) % SPACE == (a % SPACE + n) % SPACE
  {
  }

  lemma AtSum(a: nat, b: nat, n: nat)
    requires At(a) == At(b)
    ensures At(a + n) == At(b + n)
  {
    AtIsLow(a);
    AtIsLow(b);
    AtIsLow(a + n);
    AtIsLow(b + n);
    ModSum(a, n);
    ModSum(b, n);
  }

  // The flash registers and areas as the driver and the host address them.

  const CR2 := 0x505B
  const NCR2 := 0x505C
  const IAPSR := 0x505F
  const PUKR := 0x5062
  const DUKR := 0x5064

  /** Of the debug module. */
  const SWIM_CSR := 0x7F80
  const DM_CSR2 := 0x7F99

  const FLASH_START := 0x8000
  const FLASH_SIZE := 8192
  const OPTION_START := 0x4800
  const OPTION_END := 0x4840
  const BLOCK := 64

  /** What the driver writes to CR2. */
  const MODE_PRG: Byte := 0x01
  const MODE_ERASE: Byte := 0x20
  const MODE_OPT: Byte := 0x80

  // The device's own register map (RM0016 section 4.8).

  const FLASH_BASE := 0x5050
  const CR2_AT := FLASH_BASE + 11
  const NCR2_AT := FLASH_BASE + 12
  const IAPSR_AT := FLASH_BASE + 15
  const PUKR_AT := FLASH_BASE + 18
  const DUKR_AT := FLASH_BASE + 20

  /** Bytes that are erased together. */
  const ROW := 64

  /** Bits of FLASH_CR2; in FLASH_NCR2 each stands inverted. */
  const PRG_BIT := 0
  const ERASE_BIT := 5
  const OPT_BIT := 7

  /** High-voltage work under way: after `polls` more reads of IAPSR the bytes are in
      memory. */
  datatype Work = Quiet | Busy(polls: nat, at: nat, bytes: seq<Byte>)

  /** How far a two-byte key sequence has come; a wrong byte locks the register. */
  datatype Key = Expecting | Half | Dead

  /**
  `latched` holds the locations of the block erase sequence under way. `delays` are the
  durations of the operations to come, `residue` what programming leaves in a cell that
  is not erased.
  */
  datatype Device = Device(
    mem: Memory, cr2: Byte, ncr2: Byte, pul: bool, dul: bool, pukr: Key, dukr: Key,
    eop: bool, refused: bool, latched: set<nat>, work: Work, delays: seq<nat>, residue: Byte)

  /** 8 KiB of program flash and 64 option bytes. */
  predicate InProgram(a: nat) {
    0x8000 <= a <= 0x9FFF
  }

  predicate InOption(a: nat) {
    0x4800 <= a <= 0x483F
  }

  predicate IsRegister(a: nat) {
    a == CR2_AT || a == NCR2_AT || a == IAPSR_AT || a == PUKR_AT || a == DUKR_AT
  }

  /** Memory without side effects: a write stores, a read only reads. */
  predicate Plain(a: nat) {
    a < SPACE && !IsRegister(a) && !InProgram(a) && !InOption(a)
  }

  predicate Mode(d: Device, mode: Byte) {
    d.cr2 == mode && d.ncr2 == 255 - mode
  }

  /** Just this bit of CR2 is set, and just its complement in NCR2 clear. */
  predicate Selected(d: Device, bit: nat) {
    (d.cr2 as int) == Pow2(bit) && (d.ncr2 as int) == 255 - Pow2(bit)
  }

  /** The driver's values select the device's modes. */
  lemma ModesSelect(d: Device)
    ensures Selected(d, PRG_BIT) <==> Mode(d, MODE_PRG)
    ensures Selected(d, ERASE_BIT) <==> Mode(d, MODE_ERASE)
    ensures Selected(d, OPT_BIT) <==> Mode(d, MODE_OPT)
  {
    assert Pow2(5) == 4 * Pow2(3) && Pow2(7) == 4 * Pow2(5) && Pow2(3) == 8;
  }

  function BlockStart(a: nat): nat {
    a / BLOCK * BLOCK
  }

  function Zeros(n: nat): (z: seq<Byte>)
    ensures |z| == n
  {
    seq(n, _ => 0)
  }

  /** `bytes` stored at `at`. */
  function Stored(mem: Memory, at: nat, bytes: seq<Byte>): Memory
    requires at + |bytes| <= SPACE
  {
    mem[..at] + bytes + mem[at + |bytes|..]
  }

  // ----- flash operations -----

  function Start(d: Device, at: nat, bytes: seq<Byte>): Device {
    d.(latched := {}, work := Busy(if d.delays == [] then 0 else d.delays[0], at, bytes),
       delays := if d.delays == [] then [] else d.delays[1..], eop := false)
  }

  /** The locations from `base` on, `n` of them. */
  function Upto(base: nat, n: nat): set<nat>
    decreases n, base
  {
    if n == 0 then {} else Upto(base, n - 1) + {base + n - 1}
  }

  lemma {:induction false} UptoHolds(base: nat, n: nat, x: nat)
    ensures x in Upto(base, n) <==> base <= x < base + n
    decreases n
  {
    if n > 0 {
      UptoHolds(base, n - 1, x);
    }
  }

  function ProgramWrite(d: Device, a: nat, v: Byte): Device
    requires a < SPACE
  {
    if d.work.Busy? then d
    else if !d.pul then d.(refused := true)
    else if Selected(d, ERASE_BIT) then
      var latched := d.latched + {a};
      if v != 0 then d.(refused := true)
      else if latched == Upto(a - a % ROW, ROW) then Start(d, a - a % ROW, Zeros(ROW))
      else d.(latched := latched)
    else if Selected(d, PRG_BIT) then Start(d, a, [if d.mem[a] == 0 then v else d.residue])
    else d.(refused := true)
  }

  function OptionWrite(d: Device, a: nat, v: Byte): Device {
    if d.work.Busy? then d
    else if d.dul && Selected(d, OPT_BIT) then Start(d, a, [v])
    else d.(refused := true)
  }

  /** One byte written to a key register: the two keys in order unlock. */
  function KeyStep(k: Key, v: Byte, first: Byte, second: Byte): (Key, bool) {
    match k
    case Expecting => if v == first then (Half, false) else (Dead, false)
    case Half => if v == second then (Expecting, true) else (Dead, false)
    case Dead => (Dead, false)
  }

  function WriteByte(d: Device, a: Address, v: Byte): Device {
    if a == CR2_AT then d.(cr2 := v, latched := {})
    else if a == NCR2_AT then d.(ncr2 := v, latched := {})
    else if a == IAPSR_AT then d
    else if a == PUKR_AT then
      var (k, unlocked) := KeyStep(d.pukr, v, 0x56, 0xAE);
      d.(pukr := k, pul := d.pul || unlocked)
    else if a == DUKR_AT then
      var (k, unlocked) := KeyStep(d.dukr, v, 0xAE, 0x56);
      d.(dukr := k, dul := d.dul || unlocked)
    else if InProgram(a) then ProgramWrite(d, a, v)
    else if InOption(a) then OptionWrite(d, a, v)
    else d.(mem := d.mem[a := v])
  }

  // ----- reads -----

  /** The memory once the work is done. */
  function Landed(mem: Memory, work: Work): Memory {
    match work
    case Quiet => mem
    case Busy(_, at, bytes) => if at + |bytes| <= SPACE then Stored(mem, at, bytes) else mem
  }

  /** High-voltage work goes on; when it ends its bytes are in memory and EOP is set. */
  function Progress(d: Device): Device {
    match d.work
    case Quiet => d
    case Busy(polls, at, bytes) =>
      if polls > 0 then d.(work := Busy(polls - 1, at, bytes))
      else d.(work := Quiet, eop := true, mem := Landed(d.mem, d.work))
  }

  function Flag(b: bool, weight: Byte): Byte {
    if b then weight else 0
  }

  /** FLASH_IAPSR: WR_PG_DIS, PUL, EOP, DUL, HVOFF. */
  function Iapsr(d: Device): Byte {
    Flag(d.refused, 1) + Flag(d.pul, 2) + Flag(d.eop && d.work.Quiet?, 4) + Flag(d.dul, 8) + Flag(d.work.Quiet?, 64)
  }

  /** What the driver and the host look for in it. */
  predicate WrPgDis(v: Byte) { v % 2 == 1 }
  predicate Pul(v: Byte) { v / 2 % 2 == 1 }
  predicate Eop(v: Byte) { v / 4 % 2 == 1 }
  predicate Dul(v: Byte) { v / 8 % 2 == 1 }
  predicate HvOff(v: Byte) { v / 64 % 2 == 1 }

  lemma IapsrFlags(d: Device)
    ensures var v := Iapsr(d);
            && WrPgDis(v) == d.refused && Pul(v) == d.pul && Eop(v) == (d.eop && d.work.Quiet?)
            && Dul(v) == d.dul && HvOff(v) == d.work.Quiet?
  {
  }

  /** Reading IAPSR clears EOP and WR_PG_DIS. */
  function ReadByte(d: Device, a: Address): (Byte, Device) {
    if a == IAPSR_AT then
      var e := Progress(d);
      (Iapsr(e), e.(eop := false, refused := false))
    else if a == CR2_AT then (d.cr2, d)
    else if a == NCR2_AT then (d.ncr2, d)
    else if a == PUKR_AT || a == DUKR_AT then (0, d)
    else (d.mem[a], d)
  }

  // ----- runs of accesses -----

  /** What single reads and writes do. The link below is the same whatever they do. */
  datatype Machine = Machine(read: (Device, Address) -> (Byte, Device), write: (Device, Address, Byte) -> Device)

  const STM8 := Machine((d: Device, a: Address) => ReadByte(d, a), (d: Device, a: Address, v: Byte) => WriteByte(d, a, v))

  /** Consecutive writes, and consecutive reads. */
  function WriteAll(m: Machine, d: Device, a: nat, data: seq<Byte>): Device
    decreases |data|
  {
    if data == [] then d
    else
      var n := |data| - 1;
      m.write(WriteAll(m, d, a, data[..n]), At(a + n), data[n])
  }

  function ReadAll(m: Machine, d: Device, a: nat, n: nat): (r: (seq<Byte>, Device))
    ensures |r.0| == n
  {
    if n == 0 then ([], d)
    else
      var (s, e) := ReadAll(m, d, a, n - 1);
      var (b, f) := m.read(e, At(a + n - 1));
      (s + [b], f)
  }

  lemma WriteNext(m: Machine, d: Device, a: nat, x: seq<Byte>, v: Byte)
    ensures WriteAll(m, d, a, x + [v]) == m.write(WriteAll(m, d, a, x), At(a + |x|), v)
  {
    assert (x + [v])[..|x|] == x;
  }

  lemma {:induction false} WriteAppend(m: Machine, d: Device, a: nat, x: seq<Byte>, y: seq<Byte>)
    ensures WriteAll(m, d, a, x + y) == WriteAll(m, WriteAll(m, d, a, x), a + |x|, y)
    decreases |y|
  {
    if y == [] {
      assert x + y == x;
    } else {
      var (z, v) := (y[..|y| - 1], y[|y| - 1]);
      assert y == z + [v] && x + y == (x + z) + [v];
      WriteNext(m, WriteAll(m, d, a, x), a + |x|, z, v);
      WriteNext(m, d, a, x + z, v);
      WriteAppend(m, d, a, x, z);
    }
  }

  lemma ReadNext(m: Machine, d: Device, a: nat, n: nat)
    ensures var (s, e) := ReadAll(m, d, a, n);
            var (b, f) := m.read(e, At(a + n));
            ReadAll(m, d, a, n + 1) == (s + [b], f)
  {
  }

  lemma SingleAccess(m: Machine, d: Device, a: nat, v: Byte)
    ensures WriteAll(m, d, a, [v]) == m.write(d, At(a), v)
    ensures WriteAll(m, d, a, []) == d
    ensures ReadAll(m, d, a, 1) == ([m.read(d, At(a)).0], m.read(d, At(a)).1)
    ensures ReadAll(m, d, a, 0) == ([], d)
  {
    WriteNext(m, d, a, [], v);
    assert [] + [v] == [v];
    ReadNext(m, d, a, 0);
    assert [] + [m.read(d, At(a)).0] == [m.read(d, At(a)).0];
  }

  lemma {:induction false} ReadAppend(m: Machine, d: Device, a: nat, k: nat, n: nat)
    ensures ReadAll(m, d, a, k + n).0 == ReadAll(m, d, a, k).0 + ReadAll(m, ReadAll(m, d, a, k).1, a + k, n).0
    ensures ReadAll(m, d, a, k + n).1 == ReadAll(m, ReadAll(m, d, a, k).1, a + k, n).1
    decreases n
  {
    if n > 0 {
      ReadAppend(m, d, a, k, n - 1);
    }
  }

  /** Only the low 24 bits of an address matter. */
  lemma {:induction false} SameWrites(m: Machine, d: Device, a: nat, b: nat, data: seq<Byte>)
    requires At(a) == At(b)
    ensures WriteAll(m, d, a, data) == WriteAll(m, d, b, data)
    decreases |data|
  {
    if data != [] {
      var n := |data| - 1;
      AtSum(a, b, n);
      SameWrites(m, d, a, b, data[..n]);
    }
  }

  lemma {:induction false} SameReads(m: Machine, d: Device, a: nat, b: nat, n: nat)
    requires At(a) == At(b)
    ensures ReadAll(m, d, a, n) == ReadAll(m, d, b, n)
    decreases n
  {
    if n > 0 {
      AtSum(a, b, n - 1);
      SameReads(m, d, a, b, n - 1);
    }
  }

  predicate AllPlain(a: nat, n: nat) {
    a + n <= SPACE && forall i :: a <= i < a + n ==> Plain(i)
  }

  lemma PlainAccess(d: Device, a: nat, v: Byte)
    requires Plain(a)
    ensures WriteByte(d, a, v) == d.(mem := d.mem[a := v])
    ensures ReadByte(d, a) == (d.mem[a], d)
  {
  }

  lemma StoredNext(mem: Memory, a: nat, data: seq<Byte>)
    requires data != [] && a + |data| <= SPACE
    ensures Stored(mem, a, data) == Stored(mem, a, data[..|data| - 1])[a + |data| - 1 := data[|data| - 1]]
  {
  }

  lemma StoredNone(mem: Memory, a: nat)
    requires a <= SPACE
    ensures Stored(mem, a, []) == mem
  {
  }

  /** In plain memory a run of writes stores exactly its bytes. */
  lemma {:induction false} PlainWrite(d: Device, a: nat, data: seq<Byte>)
    requires AllPlain(a, |data|)
    ensures WriteAll(STM8, d, a, data) == d.(mem := Stored(d.mem, a, data))
    decreases |data|
  {
    if data == [] {
      StoredNone(d.mem, a);
    } else {
      var (x, v) := (data[..|data| - 1], data[|data| - 1]);
      assert data == x + [v];
      WriteNext(STM8, d, a, x, v);
      StoredNext(d.mem, a, data);
      PlainAccess(d.(mem := Stored(d.mem, a, x)), a + |x|, v);
      PlainWrite(d, a, x);
    }
  }

  lemma SliceNext(mem: Memory, a: nat, n: nat)
    requires 0 < n && a + n <= SPACE
    ensures mem[a..a + n] == mem[a..a + n - 1] + [mem[a + n - 1]]
  {
  }

  /** A run of reads outside the registers returns what is there. */
  lemma {:induction false} SilentRead(d: Device, a: nat, n: nat)
    requires a + n <= SPACE && forall i :: a <= i < a + n ==> !IsRegister(i)
    ensures ReadAll(STM8, d, a, n) == (d.mem[a..a + n], d)
    decreases n
  {
    if n > 0 {
      SilentRead(d, a, n - 1);
      SliceNext(d.mem, a, n);
      SilentAccess(d, a + n - 1);
    }
  }

  lemma SilentAccess(d: Device, a: Address)
    requires !IsRegister(a)
    ensures ReadByte(d, a) == (d.mem[a], d)
  {
  }

  lemma PlainRead(d: Device, a: nat, n: nat)
    requires AllPlain(a, n)
    ensures ReadAll(STM8, d, a, n) == (d.mem[a..a + n], d)
  {
    forall i | a <= i < a + n ensures !IsRegister(i) {
      assert Plain(i);
    }
    SilentRead(d, a, n);
  }

  /** Written data reads back, and no other address changes. */
  lemma {:induction false} WriteThenRead(d: Device, a: nat, data: seq<Byte>)
    requires AllPlain(a, |data|)
    ensures var e := WriteAll(STM8, d, a, data);
            && ReadAll(STM8, e, a, |data|) == (data, e)
            && e == d.(mem := e.mem)
            && forall x :: 0 <= x < SPACE && !(a <= x < a + |data|) ==> e.mem[x] == d.mem[x]
  {
    PlainWrite(d, a, data);
    PlainRead(d.(mem := Stored(d.mem, a, data)), a, |data|);
    assert Stored(d.mem, a, data)[a..a + |data|] == data;
  }

  /** A write that stops after `k` bytes leaves a prefix of the data and then the old bytes. */
  lemma {:induction false} PrefixWritten(d: Device, a: nat, data: seq<Byte>, k: nat)
    requires AllPlain(a, |data|) && k <= |data|
    ensures var e := WriteAll(STM8, d, a, data[..k]);
            && e == d.(mem := e.mem)
            && e.mem == d.mem[..a] + data[..k] + d.mem[a + k..]
  {
    forall i | a <= i < a + k ensures Plain(i) {
    }
    PlainWrite(d, a, data[..k]);
  }
}
