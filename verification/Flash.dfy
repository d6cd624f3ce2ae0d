/**
The flash driver of the firmware on top of the debug module's memory accesses.
*/
module FlashLog {
  import opened BitVectors
  import opened Stm8
  import opened Link

  /** How many CR2 operations have been attempted. */
  function Cr2Writes(log: Log): nat {
    match log
    case Start => 0
    case Then(before, e) => Cr2Writes(before) + if e.Write? && e.address == CR2 then 1 else 0
  }

  /** The last CR2 operation attempted, if any, is the clear. */
  predicate Cleared(log: Log) {
    match log
    case Start => true
    case Then(before, e) => if e.Write? && e.address == CR2 then e.bytes == [0] else Cleared(before)
  }

  /** The register has been read back since it was last written, last as `v`. */
  predicate ReadBack(log: Log, register: nat, v: Byte) {
    match log
    case Start => false
    case Then(before, e) =>
      if e.Write? && e.address == register then false
      else if e.Read? && e.address == register && e.status == Ok then e.data == [v]
      else ReadBack(before, register, v)
  }

  /** Normal mode has been verified: CR2 = 0 and NCR2 = 0xFF. */
  predicate NormalMode(log: Log) {
    Cleared(log) && ReadBack(log, CR2, 0) && ReadBack(log, NCR2, 255)
  }

  predicate IsMode(address: nat) {
    address == CR2 || address == NCR2
  }

  /** A write of `n` bytes that can start work in the flash: any but those of single bytes to
      the debug module, on entry, and those to CR2 and NCR2. */
  predicate IsTrigger(address: nat, n: nat) {
    !IsMode(address) && (n != 1 || (address != SWIM_CSR && address != DM_CSR2))
  }

  /** These writes: address and bytes. */
  function Triggers(log: Log): seq<(nat, seq<Byte>)> {
    match log
    case Start => []
    case Then(before, e) =>
      if e.Write? && IsTrigger(e.address, |e.bytes|) then Triggers(before) + [(e.address, e.bytes)] else Triggers(before)
  }

  /** The driver's assumption: such a write that ended in NACK or timeout was still
      fully accepted by the target. */
  predicate TriggersTaken(log: Log) {
    match log
    case Start => true
    case Then(before, e) =>
      TriggersTaken(before) && (e.Write? && IsTrigger(e.address, |e.bytes|) ==> e.taken == |e.bytes|)
  }

  /** How many synchronisation frames have been measured after a communication reset. */
  function Resyncs(log: Log): nat {
    match log
    case Start => 0
    case Then(before, e) => Resyncs(before) + if e == CommReset(true) then 1 else 0
  }

  /** The log goes on without such a write. */
  predicate SameTriggers(log: Log, before: Log) {
    Triggers(log) == Triggers(before) && TriggersTaken(log) == TriggersTaken(before)
  }

  /** One CR2 operation, writing `value`, has been attempted. */
  predicate ModeSet(log: Log, before: Log, value: Byte) {
    && SameTriggers(log, before)
    && Cr2Writes(log) == Cr2Writes(before) + 1
    && (Cleared(log) <==> value == 0)
  }

  /** And none. */
  predicate NoMode(log: Log, before: Log) {
    && Cr2Writes(log) == Cr2Writes(before)
    && (Cleared(log) <==> Cleared(before))
    && forall v: Byte :: && ReadBack(log, CR2, v) == ReadBack(before, CR2, v)
                         && ReadBack(log, NCR2, v) == ReadBack(before, NCR2, v)
  }
}

/** The arithmetic of an erase range, in 32 bits. */
module EraseRanges {
  import opened BitVectors
  import opened Stm8

  /** The end of the range as the C code rounds it up; the sum wraps. */
  function RoundedEnd(end: nat): nat {
    (end + BLOCK - 1) % U32 / BLOCK * BLOCK
  }

  /** The range lies in the program flash. */
  predicate InFlash(address: nat, length: nat) {
    FLASH_START <= address && address + length <= FLASH_START + FLASH_SIZE
  }

  /** How many blocks the loop erases. */
  function BlockCount(address: nat, length: nat): nat {
    var end := RoundedEnd(address + length);
    if end <= BlockStart(address) then 0 else (end - BlockStart(address)) / BLOCK
  }

  /** The loop's writes: the first `n` blocks from `start` on, in ascending order. */
  function EraseWrites(start: nat, n: nat): (w: seq<(nat, seq<Byte>)>)
    ensures |w| == n && forall i :: 0 <= i < n ==> w[i] == (start + BLOCK * i, Zeros(BLOCK))
  {
    if n == 0 then [] else EraseWrites(start, n - 1) + [(start + BLOCK * (n - 1), Zeros(BLOCK))]
  }

  ghost predicate Listed(address: nat, length: nat, b: nat) {
    exists i :: 0 <= i < BlockCount(address, length) && b == BlockStart(address) + BLOCK * i
  }

  predicate Overlaps(address: nat, length: nat, b: nat) {
    b < address + length && address < b + BLOCK
  }

  /** The erased blocks are exactly those that overlap the range. */
  ghost predicate Exact(address: nat, length: nat) {
    forall b: nat :: b % BLOCK == 0 ==> (Listed(address, length, b) <==> Overlaps(address, length, b))
  }

  lemma EndIs(end: nat)
    requires end <= U32 - BLOCK
    ensures end <= RoundedEnd(end) < end + BLOCK && RoundedEnd(end) % BLOCK == 0
  {
  }

  lemma BlocksAre(address: nat, length: nat)
    requires length > 0 && address + length <= U32 - BLOCK
    ensures BlockStart(address) + BLOCK * BlockCount(address, length) == RoundedEnd(address + length)
    ensures BlockCount(address, length) > 0
  {
    EndIs(address + length);
  }

  lemma ListedIsOverlap(address: nat, length: nat, b: nat)
    requires length > 0 && address + length <= U32 - BLOCK && b % BLOCK == 0
    ensures Listed(address, length, b) <==> Overlaps(address, length, b)
  {
    BlocksAre(address, length);
    EndIs(address + length);
    var (start, n, end) := (BlockStart(address), BlockCount(address, length), RoundedEnd(address + length));
    if Overlaps(address, length, b) {
      var i := OverlapAt(address, length, start, n, end, b);
      assert Listed(address, length, b);
    }
    if Listed(address, length, b) {
      var i :| 0 <= i < n && b == start + BLOCK * i;
      AtOverlaps(address, length, start, n, end, i);
    }
  }

  lemma OverlapAt(address: nat, length: nat, start: nat, n: nat, end: nat, b: nat) returns (i: nat)
    requires start == BlockStart(address) && start + BLOCK * n == end && address + length <= end
    requires b % BLOCK == 0 && Overlaps(address, length, b)
    ensures i < n && b == start + BLOCK * i
  {
    assert b >= start;
    i := (b - start) / BLOCK;
  }

  lemma AtOverlaps(address: nat, length: nat, start: nat, n: nat, end: nat, i: nat)
    requires start == BlockStart(address) && start + BLOCK * n == end < address + length + BLOCK && i < n
    ensures Overlaps(address, length, start + BLOCK * i)
  {
  }

  lemma EndOnBlock(address: nat, length: nat)
    requires address + length < U32
    ensures var start, end := BlockStart(address), RoundedEnd(address + length);
            && start % BLOCK == 0 && end < U32
            && (if end <= start then BlockCount(address, length) == 0 else end == start + BLOCK * BlockCount(address, length))
  {
  }

  /** The flash is a whole number of blocks, so a range in it stays in it when rounded. */
  lemma RoundedInFlash(address: nat, length: nat)
    requires FLASH_START <= address && address + length <= FLASH_START + FLASH_SIZE
    ensures FLASH_START <= BlockStart(address) && RoundedEnd(address + length) <= FLASH_START + FLASH_SIZE
  {
  }

  /** In the last 63 bytes below 2^32 the rounded end wraps to 0, and nothing is erased. */
  lemma WrapErasesNothing(address: nat, length: nat)
    requires U32 - BLOCK < address + length < U32
    ensures BlockCount(address, length) == 0
  {
    assert (address + length + BLOCK - 1) % U32 == address + length + BLOCK - 1 - U32;
  }

  /** A block before the end ends by it. */
  lemma NextBlock(start: nat, n: nat, total: nat, block: nat, end: nat)
    requires start % BLOCK == 0 && block == start + BLOCK * n && end == start + BLOCK * total && block < end
    ensures n < total && block % BLOCK == 0 && block + BLOCK == start + BLOCK * (n + 1) <= end
  {
  }

  /** What the loop needs to know of its bounds. */
  lemma Rounded(address: nat, length: nat, start: nat, last: nat, total: nat)
    requires length > 0 && address + length < U32
    requires start == BlockStart(address) && last == RoundedEnd(address + length) && total == BlockCount(address, length)
    ensures start % BLOCK == 0 && last < U32 && (if last <= start then total == 0 else last == start + BLOCK * total)
    ensures InFlash(address, length) ==> FLASH_START <= start && last <= FLASH_START + FLASH_SIZE
    ensures U32 - BLOCK < address + length ==> total == 0
  {
    EndOnBlock(address, length);
    if InFlash(address, length) {
      RoundedInFlash(address, length);
    }
    if U32 - BLOCK < address + length {
      WrapErasesNothing(address, length);
    }
  }

  /** The range is covered exactly, if and only if it ends at or below 2^32 - 64. */
  lemma ExactIff(address: nat, length: nat)
    requires length > 0 && address + length < U32
    ensures Exact(address, length) <==> address + length <= U32 - BLOCK
  {
    if address + length <= U32 - BLOCK {
      forall b: nat | b % BLOCK == 0
        ensures Listed(address, length, b) <==> Overlaps(address, length, b)
      {
        ListedIsOverlap(address, length, b);
      }
    } else {
      WrapErasesNothing(address, length);
      var b := BlockStart(address);
      assert b % BLOCK == 0 && Overlaps(address, length, b) && !Listed(address, length, b);
    }
  }
}

module Flash {
  import opened BitVectors
  import opened Stm8
  import opened FlashController
  import opened Target
  import opened Link
  import opened FlashLog
  import opened EraseRanges

  /** The log of an erase loop after `n` blocks. */
  predicate Erasing(log: Log, before: Log, start: nat, n: nat) {
    && Triggers(log) == Triggers(before) + EraseWrites(start, n)
    && (TriggersTaken(log) ==> TriggersTaken(before))
    && Cr2Writes(log) >= Cr2Writes(before)
    && (if n == 0 then Cr2Writes(log) == Cr2Writes(before) else NormalMode(log))
  }

  /** Under the driver's assumption, a quiet controller had its program flash unlocked, and
      the `n` blocks from `start` on have become zero, if they are program flash. */
  ghost predicate ErasedTo(m: Machine, origin: Target, t: Target, log: Log, start: nat, n: nat) {
    && t.Conforming? == origin.Conforming?
    && (m == STM8 && t.Conforming? && TriggersTaken(log) && origin.dev.work.Quiet?
        && FLASH_START <= start && start + BLOCK * n <= FLASH_START + FLASH_SIZE
        ==> origin.dev.pul && Reached(origin.dev, t.dev, Stored(origin.dev.mem, start, Zeros(BLOCK * n))))
  }

  /** What the write of a block leaves in the log. */
  lemma ZerosLogged(log: Log, before: Log, block: nat, zeros: seq<Byte>, st: Status, taken: nat)
    requires block % BLOCK == 0 && |zeros| == BLOCK && log == Then(before, Event.Write(block, zeros, st, taken))
    ensures Triggers(log) == Triggers(before) + [(block, zeros)] && NoMode(log, before)
    ensures TriggersTaken(log) <==> TriggersTaken(before) && taken == |zeros|
  {
    assert IsTrigger(block, |zeros|);
  }

  lemma StartsErased(m: Machine, origin: Target, t: Target, log: Log, start: nat)
    requires t.Conforming? == origin.Conforming?
    requires m == STM8 && t.Conforming? && origin.dev.work.Quiet? ==> origin.dev.pul && t.dev == Settled(origin.dev)
    ensures ErasedTo(m, origin, t, log, start, 0)
  {
    if m == STM8 && t.Conforming? && origin.dev.work.Quiet? && start <= SPACE {
      QuietReached(origin.dev);
      StoredNoZeros(origin.dev.mem, start);
    }
  }

  lemma BlockErased(m: Machine, origin: Target, t: Target, u: Target, start: nat, n: nat, block: nat)
    requires block == start + BLOCK * n && block + BLOCK <= SPACE
    requires origin.Conforming? && t.Conforming? && u.Conforming?
    ensures Reached(origin.dev, t.dev, Stored(origin.dev.mem, start, Zeros(BLOCK * n)))
            && Reached(t.dev, u.dev, Stored(t.dev.mem, block, Zeros(BLOCK)))
        ==> Reached(origin.dev, u.dev, Stored(origin.dev.mem, start, Zeros(BLOCK * (n + 1))))
  {
    StoredMore(origin.dev.mem, start, BLOCK * n, BLOCK);
  }

  /** How a block write ended. */
  datatype Exit = NotStarted | PrgFailed | TriggerFailed | WaitFailed | ClearFailed | Complete

  function ByteAt(address: nat, i: nat): nat {
    (address + i) % U32
  }

  /** The writes of a program loop: the bytes that are not zero, in ascending order. */
  function ProgramWrites(address: nat, data: seq<Byte>): seq<(nat, seq<Byte>)>
    decreases |data|
  {
    if data == [] then []
    else
      var n := |data| - 1;
      ProgramWrites(address, data[..n]) + if data[n] == 0 then [] else [(ByteAt(address, n), [data[n]])]
  }

  predicate AllTriggers(address: nat, n: nat) {
    forall i :: 0 <= i < n ==> IsTrigger(ByteAt(address, i), 1)
  }

  /** The log of a program loop after `i` bytes: PRG is still set. */
  predicate Programming(log: Log, before: Log, address: nat, data: seq<Byte>, i: nat)
    requires i <= |data|
  {
    && Cr2Writes(log) > Cr2Writes(before) && !Cleared(log)
    && (TriggersTaken(log) ==> TriggersTaken(before))
    && (AllTriggers(address, |data|) ==> Triggers(log) == Triggers(before) + ProgramWrites(address, data[..i]))
  }

  /** However it ends, no more than the first blocks of the range have been erased, in order. */
  ghost predicate EraseBegun(log: Log, before: Log, address: nat, length: nat)
    requires address < U32
  {
    exists n ::
      && 0 <= n <= BlockCount(address, length)
      && Triggers(log) == Triggers(before) + EraseWrites(BlockStart(address), n)
  }

  /** However it ends, no more than the first bytes of the data have been programmed, in order. */
  ghost predicate ProgramBegun(log: Log, before: Log, address: nat, data: seq<Byte>) {
    exists n :: ProgramSent(log, before, address, data, n)
  }

  predicate ProgramSent(log: Log, before: Log, address: nat, data: seq<Byte>, n: int) {
    && 0 <= n <= |data|
    && (AllTriggers(address, |data|) ==> Triggers(log) == Triggers(before) + ProgramWrites(address, data[..n]))
  }

  lemma NotBegun(now: Log, before: Log, address: nat, data: seq<Byte>)
    requires Triggers(now) == Triggers(before)
    ensures ProgramBegun(now, before, address, data)
  {
    assert data[..0] == [] && ProgramWrites(address, data[..0]) == [];
    assert ProgramSent(now, before, address, data, 0);
  }

  /** Under the driver's assumption, the first `i` bytes are in flash that was erased. */
  ghost predicate ProgrammedTo(m: Machine, origin: Target, t: Target, log: Log, address: nat, data: seq<Byte>, i: nat)
    requires i <= |data|
  {
    && t.Conforming? == origin.Conforming?
    && (m == STM8 && t.Conforming? && TriggersTaken(log) && origin.dev.work.Quiet? && ErasedCells(origin.dev, address, |data|)
        ==> origin.dev.pul && Programmed(origin.dev, t.dev, address, data, i))
  }

  /** And all of them, with the controller back in its normal mode. */
  ghost predicate BlockProgrammed(m: Machine, origin: Target, t: Target, log: Log, address: nat, data: seq<Byte>) {
    m == STM8 && t.Conforming? && origin.Conforming? && TriggersTaken(log) && origin.dev.work.Quiet?
    && ErasedCells(origin.dev, address, |data|)
    ==> origin.dev.pul && Reached(origin.dev, t.dev, Stored(origin.dev.mem, address, data))
  }

  lemma StartsProgramming(m: Machine, origin: Target, t: Target, log: Log, address: nat,
      data: seq<Byte>)
    requires t.Conforming? == origin.Conforming?
    requires m == STM8 && t.Conforming? && origin.dev.work.Quiet?
         ==> origin.dev.pul && t.dev == InMode(Settled(origin.dev), MODE_PRG)
    ensures ProgrammedTo(m, origin, t, log, address, data, 0)
  {
    if m == STM8 && t.Conforming? && origin.dev.work.Quiet? && ErasedCells(origin.dev, address, |data|) {
      StartsProgrammed(origin.dev, address, data);
    }
  }

  lemma SkipsZero(m: Machine, origin: Target, t: Target, log: Log, before: Log, address: nat,
      data: seq<Byte>, i: nat)
    requires i < |data| && data[i] == 0
    requires Programming(log, before, address, data, i) && ProgrammedTo(m, origin, t, log, address, data, i)
    ensures Programming(log, before, address, data, i + 1) && ProgrammedTo(m, origin, t, log, address, data, i + 1)
  {
    assert data[..i + 1][..i] == data[..i];
    if t.Conforming? && ErasedCells(origin.dev, address, |data|) && Programmed(origin.dev, t.dev, address, data, i) {
      ZeroSkipped(origin.dev, t.dev, address, data, i);
    }
  }

  /** How many bytes are programmed. */
  function NonZeros(data: seq<Byte>): nat
    decreases |data|
  {
    if data == [] then 0
    else NonZeros(data[..|data| - 1]) + if data[|data| - 1] == 0 then 0 else 1
  }

  lemma {:induction false} NextCounted(data: seq<Byte>, i: nat)
    requires i < |data|
    ensures NonZeros(data[..i + 1]) == NonZeros(data[..i]) + if data[i] == 0 then 0 else 1
    ensures NonZeros(data[..i + 1]) <= NonZeros(data)
    decreases |data| - i
  {
    assert data[..i + 1][..i] == data[..i];
    if i + 1 < |data| {
      NextCounted(data, i + 1);
    } else {
      assert data[..i + 1] == data;
    }
  }

  lemma MoreCounted(data: seq<Byte>, i: nat)
    requires i <= |data|
    ensures NonZeros(data[..i]) <= NonZeros(data)
  {
    if i < |data| {
      NextCounted(data, i);
    } else {
      assert data[..i] == data;
    }
  }

  lemma NextOutlasts(delays: seq<nat>, data: seq<Byte>, i: nat, n: nat)
    requires i < |data| && n == NonZeros(data[..i])
    ensures var next := NonZeros(data[..i + 1]);
            && (Outlasts(delays, next) ==> Outlasts(delays, NonZeros(data)))
            && if data[i] == 0 then next == n
               else && Drop(Drop(delays, n), 1) == Drop(delays, next)
                    && (Outlasts(delays, next) <==> Outlasts(delays, n) || Outlasts(Drop(delays, n), 1))
  {
    NextCounted(data, i);
    OutlastsMore(delays, n);
  }

  /** A byte is being programmed, and the mode is kept until it is stored. */
  predicate Programs(e: Device) {
    e.work.Busy? && !e.refused && Ready(Settled(e)) && Mode(Settled(e), MODE_PRG)
  }

  lemma ProgramsAt(d: Device, address: nat, i: nat, v: Byte)
    requires Programmable(d, address + i)
    ensures var e := WriteByte(d, At(ByteAt(address, i)), v);
            && Programs(e) && (e.work.polls >= WAIT_POLLS <==> Outlasts(d.delays, 1)) && e.delays == Drop(d.delays, 1)
  {
    assert At(ByteAt(address, i)) == address + i;
    ByteStarts(d, address + i, v);
  }

  lemma NextProgrammed(m: Machine, origin: Target, t: Target, u: Target, w: Target,
      address: nat, data: seq<Byte>, i: nat, taken: bool)
    requires i < |data| && origin.Conforming? && t.Conforming? && u.Conforming? && w.Conforming?
    requires m == STM8 ==> u.dev == if taken then m.write(t.dev, At(ByteAt(address, i)), data[i]) else t.dev
    requires m == STM8 ==> w.dev == Settled(u.dev)
    ensures m == STM8 && ErasedCells(origin.dev, address, |data|) ==> IsTrigger(ByteAt(address, i), 1)
    ensures m == STM8 && taken && ErasedCells(origin.dev, address, |data|) && Programmed(origin.dev, t.dev, address, data, i)
        ==> Programmed(origin.dev, w.dev, address, data, i + 1)
  {
    if m == STM8 && ErasedCells(origin.dev, address, |data|) {
      var a := At(ByteAt(address, i));
      assert a == address + i;
      if taken && Programmed(origin.dev, t.dev, address, data, i) {
        ByteProgrammed(origin.dev, t.dev, address, data, i, a);
      }
    }
  }

  /** After the last byte the mode is left. */
  lemma EndsProgramming(m: Machine, origin: Target, t: Target, log: Log, address: nat, data: seq<Byte>)
    requires ProgrammedTo(m, origin, t, log, address, data, |data|)
    ensures m == STM8 && t.Conforming? && TriggersTaken(log) && origin.dev.work.Quiet? && ErasedCells(origin.dev, address, |data|)
        ==> origin.dev.pul && Reached(origin.dev, InMode(t.dev, 0), Stored(origin.dev.mem, address, data))
  {
    if t.Conforming? && ErasedCells(origin.dev, address, |data|) && Programmed(origin.dev, t.dev, address, data, |data|) {
      EndsProgrammed(origin.dev, t.dev, address, data);
    }
  }

  /** After `n` polls of a busy controller. */
  predicate Waited(d: Device, e: Device, n: nat) {
    d.work.Busy? && e.work.Busy? && d.work.polls == e.work.polls + n
  }

  /** CR2 and NCR2 written, and then read back. */
  function PairWritten(m: Machine, d: Device, value: Byte): Device {
    m.write(m.write(d, CR2, value), NCR2, 255 - value)
  }

  function Cr2Read(m: Machine, d: Device, value: Byte): (Byte, Device) {
    m.read(PairWritten(m, d, value), CR2)
  }

  function Ncr2Read(m: Machine, d: Device, value: Byte): (Byte, Device) {
    m.read(Cr2Read(m, d, value).1, NCR2)
  }

  predicate ReadsBack(m: Machine, d: Device, value: Byte) {
    Cr2Read(m, d, value).0 == value && Ncr2Read(m, d, value).0 == 255 - value
  }

  const MASK_POLLS := 100

  const DUL_KEYS: seq<(nat, seq<Byte>)> := [(DUKR, [0xAE]), (DUKR, [0x56])]

  /** The log goes on with the first of the two keys at most, or with both. */
  predicate KeysSent(log: Log, before: Log) {
    KeysSentTo(Triggers(log), before)
  }

  /** And then with the option byte at most; with it if `ok`. */
  predicate OptionSent(log: Log, before: Log, address: nat, value: Byte, ok: bool) {
    || (!ok && KeysSent(log, before))
    || (Triggers(log) != [] && KeysSentTo(Triggers(log)[..|Triggers(log)| - 1], before)
        && Triggers(log)[|Triggers(log)| - 1] == (address, [value]))
  }

  lemma OptionFollows(log: Log, keys: Log, before: Log, address: nat, value: Byte, ok: bool)
    requires KeysSent(keys, before)
    requires Triggers(log) == Triggers(keys) + [(address, [value])] || (!ok && Triggers(log) == Triggers(keys))
    ensures OptionSent(log, before, address, value, ok)
  {
    assert (Triggers(keys) + [(address, [value])])[..|Triggers(keys)|] == Triggers(keys);
  }

  predicate KeysSentTo(triggers: seq<(nat, seq<Byte>)>, before: Log) {
    Triggers(before) <= triggers <= Triggers(before) + DUL_KEYS
  }

  class Driver {
    const link: SwimLink
    /** Whether the diagnostic text is non-empty. */
    var message: bool

    constructor (link: SwimLink)
      ensures this.link == link && !message
    {
      this.link, message := link, false;
    }

    /** The clock is known and no frame is disturbed, whatever the device does. */
    ghost predicate Reaching()
      reads link
    {
      link.ready && link.low && Clear(link.target)
    }

    /** And every synchronisation frame is measured, and the device is an STM8. */
    ghost predicate Undisturbed()
      reads link
    {
      link.m == STM8 && link.syncs == [] && Reaching()
    }

    /** Nothing goes wrong: and the controller is never busy for too long. */
    ghost predicate Healthy()
      reads link
    {
      Undisturbed() && Prompt(link.target.dev)
    }

    /** Nothing will go wrong, once SWIM has been entered. */
    ghost predicate Reachable()
      reads link
    {
      link.m == STM8 && link.syncs == [] && Clear(link.target) && Prompt(link.target.dev)
    }

    method ReadU8(address: Address) returns (st: Status, v: Byte)
      modifies link`target, link`pad, link`log
      ensures link.ready && link.low && Clear(old(link.target)) ==> st == Ok && Clear(link.target)
      ensures exists data :: ReadOnce(link.log, old(link.log), address, 1, st, data) && (st == Ok ==> data == [v])
      ensures link.target.Conforming? == old(link.target).Conforming?
      ensures link.target.Conforming? && st == Ok ==> (v, link.target.dev) == link.m.read(old(link.target).dev, address)
      ensures link.target.Conforming? ==>
                link.target.dev == old(link.target).dev || link.target.dev == link.m.read(old(link.target).dev, address).1
    {
      var data;
      ghost var taken;
      ghost var before := link.target;
      st, data, taken := link.DmRead(address, 1);
      v := if st == Ok then data[0] else 0;
      if before.Conforming? {
        SingleAccess(link.m, before.dev, address, 0);
      }
    }

    method WriteU8(address: nat, v: Byte) returns (st: Status, ghost taken: nat)
      requires address < U32
      modifies link`target, link`pad, link`log
      ensures link.ready && Clear(old(link.target)) ==> st == Ok && Clear(link.target)
      ensures Answered(st) && taken <= 1 && (st == Ok ==> taken == 1)
      ensures link.log == Then(old(link.log), Event.Write(address, [v], st, taken))
      ensures link.target.Conforming? == old(link.target).Conforming?
      ensures link.target.Conforming? ==>
                link.target.dev == if taken == 0 then old(link.target).dev
                                   else link.m.write(old(link.target).dev, At(address), v)
    {
      ghost var done;
      ghost var before := link.target;
      st, taken, done := link.DmWrite(address, [v]);
      OneChunk(link.log, old(link.log), address, [v], done, taken, st);
      assert [v][..taken] == if taken == 0 then [] else [v];
      if before.Conforming? {
        SingleAccess(link.m, before.dev, address, v);
      }
    }

    /** A write to CR2 or NCR2. */
    method WriteMode(register: nat, v: Byte) returns (st: Status)
      requires IsMode(register)
      modifies link`target, link`pad, link`log
      ensures link.ready && Clear(old(link.target)) ==> st == Ok && Clear(link.target)
      ensures exists taken :: link.log == Then(old(link.log), Event.Write(register, [v], st, taken))
      ensures link.target.Conforming? == old(link.target).Conforming?
      ensures link.target.Conforming? && st == Ok ==> link.target.dev == link.m.write(old(link.target).dev, register, v)
      ensures link.m == STM8 && link.target.Conforming? ==>
                && OnlyMode(old(link.target).dev, link.target.dev)
                && (st == Ok ==> link.target.dev == ModeWritten(old(link.target).dev, register, v))
    {
      ghost var taken;
      st, taken := WriteU8(register, v);
    }

    /** A read of CR2 or NCR2: without side effects. */
    method ReadMode(register: Address) returns (st: Status, v: Byte)
      requires IsMode(register)
      modifies link`target, link`pad, link`log
      ensures link.ready && link.low && Clear(old(link.target)) ==> st == Ok && Clear(link.target)
      ensures exists data :: ReadOnce(link.log, old(link.log), register, 1, st, data) && (st == Ok ==> data == [v])
      ensures link.target.Conforming? == old(link.target).Conforming?
      ensures link.target.Conforming? && st == Ok ==> (v, link.target.dev) == link.m.read(old(link.target).dev, register)
      ensures link.m == STM8 && link.target.Conforming? ==>
                && link.target.dev == old(link.target).dev
                && (st == Ok ==> v == if register == CR2 then link.target.dev.cr2 else link.target.dev.ncr2)
    {
      st, v := ReadU8(register);
    }

    method WriteModePair(value: Byte) returns (st: Status)
      modifies link`target, link`pad, link`log
      ensures link.ready && Clear(old(link.target)) ==> st == Ok && Clear(link.target)
      ensures ModeSet(link.log, old(link.log), value)
      ensures link.target.Conforming? == old(link.target).Conforming?
      ensures link.target.Conforming? && st == Ok ==> link.target.dev == PairWritten(link.m, old(link.target).dev, value)
      ensures link.m == STM8 && link.target.Conforming? ==>
                && OnlyMode(old(link.target).dev, link.target.dev)
                && (st == Ok ==> link.target.dev == InMode(old(link.target).dev, value))
    {
      ghost var before := link.target;
      st := WriteMode(CR2, value);
      assert ModeSet(link.log, old(link.log), value);
      if st == Ok {
        ghost var between := link.target;
        st := WriteMode(NCR2, 255 - value);
        if before.Conforming? && link.m == STM8 {
          ModePair(before.dev, between.dev, link.target.dev, value);
        }
      }
    }

    method ReadModePair(value: Byte, ghost before: Log) returns (st: Status)
      requires ModeSet(link.log, before, value)
      modifies this, link`target, link`pad, link`log
      ensures old(Reaching()) ==>
                var (cr2, d) := link.m.read(old(link.target).dev, CR2);
                var (ncr2, e) := link.m.read(d, NCR2);
                Reaching() && link.target.dev == e && st == if cr2 == value && ncr2 == 255 - value then Ok else TargetError
      ensures old(message) ==> message
      ensures ModeSet(link.log, before, value)
      ensures st == Ok ==> ReadBack(link.log, CR2, value) && ReadBack(link.log, NCR2, 255 - value)
      ensures link.target.Conforming? == old(link.target).Conforming?
      ensures link.m == STM8 && link.target.Conforming? ==>
                && link.target.dev == old(link.target).dev
                && (st == Ok ==> link.target.dev.cr2 == value && link.target.dev.ncr2 == 255 - value)
    {
      var cr2, ncr2;
      st, cr2 := ReadMode(CR2);
      assert ModeSet(link.log, before, value);
      if st != Ok {
        return;
      }
      st, ncr2 := ReadMode(NCR2);
      if st != Ok {
        return;
      }
      if cr2 != value || ncr2 != 255 - value {
        message := true;
        return TargetError;
      }
    }

    /** set_flash_cr2: CR2 and its complement, both read back. */
    method SetCr2(value: Byte) returns (st: Status)
      modifies this, link`target, link`pad, link`log
      ensures old(Undisturbed()) ==> Undisturbed() && st == Ok
      ensures old(Healthy()) ==> Healthy()
      ensures old(Reaching())
          ==> Reaching() && link.target.dev == Ncr2Read(link.m, old(link.target).dev, value).1
              && st == if ReadsBack(link.m, old(link.target).dev, value) then Ok else TargetError
      ensures old(message) ==> message
      ensures ModeSet(link.log, old(link.log), value)
      ensures st == Ok ==> ReadBack(link.log, CR2, value) && ReadBack(link.log, NCR2, 255 - value)
      ensures link.target.Conforming? == old(link.target).Conforming?
      ensures link.m == STM8 && link.target.Conforming? ==>
                && OnlyMode(old(link.target).dev, link.target.dev)
                && (st == Ok ==> link.target.dev == InMode(old(link.target).dev, value))
    {
      st := WriteModePair(value);
      if st != Ok {
        return;
      }
      st := ReadModePair(value, old(link.log));
    }

    /** A poll of IAPSR. */
    method ReadIapsr() returns (st: Status, v: Byte)
      modifies link`target, link`pad, link`log
      ensures exists data :: ReadOnce(link.log, old(link.log), IAPSR, 1, st, data) && (st == Ok ==> data == [v])
      ensures old(Undisturbed()) ==> Undisturbed() && st == Ok
      ensures old(Healthy()) ==> Healthy()
      ensures old(Reaching())
          ==> Reaching() && st == Ok && (v, link.target.dev) == link.m.read(old(link.target).dev, IAPSR)
      ensures SameTriggers(link.log, old(link.log)) && NoMode(link.log, old(link.log))
      ensures link.target.Conforming? == old(link.target).Conforming?
      ensures link.m == STM8 && link.target.Conforming? ==>
                && Settled(link.target.dev) == Settled(old(link.target).dev)
                && (st == Ok ==> IapsrSays(old(link.target).dev, link.target.dev, v))
    {
      ghost var before := link.target;
      st, v := ReadU8(IAPSR);
      if before.Conforming? {
        PollSettles(before.dev);
      }
    }

    /** require_program_unlocked */
    method RequireProgramUnlocked() returns (st: Status)
      modifies link`target, link`pad, link`log
      ensures exists read, data ::
                && ReadOnce(link.log, old(link.log), IAPSR, 1, read, data) && (read == Ok ==> |data| == 1)
                && st == if read != Ok then read else if Pul(data[0]) then Ok else TargetError
      ensures old(Undisturbed()) && old(link.target).dev.pul ==> Undisturbed() && st == Ok
      ensures old(Reaching())
          ==> var (v, d) := link.m.read(old(link.target).dev, IAPSR);
              Reaching() && link.target.dev == d && st == if Pul(v) then Ok else TargetError
      ensures old(Healthy()) ==> Healthy()
      ensures SameTriggers(link.log, old(link.log)) && NoMode(link.log, old(link.log))
      ensures link.target.Conforming? == old(link.target).Conforming?
      ensures link.m == STM8 && link.target.Conforming? ==>
                && Settled(link.target.dev) == Settled(old(link.target).dev)
                && (st == Ok ==> old(link.target).dev.pul)
                && (st == Ok && old(link.target).dev.work.Quiet? ==> link.target.dev == Settled(old(link.target).dev))
    {
      var iapsr;
      st, iapsr := ReadIapsr();
      if st == Ok && !Pul(iapsr) {
        return TargetError;
      }
    }

    /** wait_flash_complete: a failure always leaves a message. */
    method WaitFlashComplete() returns (st: Status)
      modifies this, link`target, link`pad, link`log
      ensures Resyncs(link.log) == Resyncs(old(link.log))
      ensures st == Ok ==> exists before, v :: ReadOnce(link.log, before, IAPSR, 1, Ok, [v]) && (Eop(v) || HvOff(v)) && !WrPgDis(v)
      ensures old(Undisturbed()) && !old(link.target).dev.refused
          ==> Undisturbed()
              && st == if old(link.target).dev.work.Busy? && old(link.target).dev.work.polls >= 2000 then TargetError else Ok
      ensures old(Undisturbed()) && old(link.target).dev.refused ==> Undisturbed() && st == TargetError
      ensures old(Healthy()) && !old(link.target).dev.refused ==> Healthy() && st == Ok
      ensures SameTriggers(link.log, old(link.log)) && NoMode(link.log, old(link.log))
      ensures if st == Ok then message == old(message) else message
      ensures link.target.Conforming? == old(link.target).Conforming?
      ensures link.m == STM8 && link.target.Conforming? ==>
                && Settled(link.target.dev) == Settled(old(link.target).dev)
                && (st == Ok ==> link.target.dev == Settled(old(link.target).dev) && !old(link.target).dev.refused)
    {
      for attempt := 0 to WAIT_POLLS
        invariant message == old(message)
        invariant old(Undisturbed()) && old(link.target).dev.refused
              ==> attempt == 0 && Undisturbed() && link.target.dev.refused
        invariant old(Undisturbed()) && !old(link.target).dev.refused ==>
                    && Undisturbed() && !link.target.dev.refused
                    && (attempt > 0 ==> Waited(old(link.target).dev, link.target.dev, attempt))
        invariant Resyncs(link.log) == Resyncs(old(link.log))
        invariant SameTriggers(link.log, old(link.log)) && NoMode(link.log, old(link.log))
        invariant link.target.Conforming? == old(link.target).Conforming?
        invariant link.m == STM8 && link.target.Conforming? ==>
                    && Settled(link.target.dev) == Settled(old(link.target).dev)
                    && (attempt > 0 ==> !old(link.target).dev.refused)
                    && (attempt == 0 ==> link.target == old(link.target))
      {
        var v;
        st, v := ReadIapsr();
        if st != Ok {
          message := true;
          return;
        }
        if WrPgDis(v) {
          message := true;
          return TargetError;
        }
        if Eop(v) || HvOff(v) {
          return Ok;
        }
      }
      message := true;
      return TargetError;
    }

    /** flash_busy_delay_and_resync */
    method Resync() returns (st: Status)
      modifies link`ready, link`low, link`syncs, link`target, link`pad, link`log
      ensures link.log == Then(old(link.log), CommReset(st == Ok))
      ensures old(Undisturbed()) ==> Undisturbed() && st == Ok
      ensures old(Healthy()) ==> Healthy()
      ensures SameTriggers(link.log, old(link.log)) && NoMode(link.log, old(link.log))
      ensures st == Ok || st == Timeout
      ensures link.target.Conforming? == old(link.target).Conforming?
      ensures link.target.Conforming? ==> link.target.dev == old(link.target).dev
    {
      var ok := link.CommResetWaitSync();
      st := if ok then Ok else Timeout;
    }

    /** After a write that starts high-voltage work: NACK and timeout are taken for a busy
        target, and the link is resynchronised. */
    method AfterTrigger(trigger: Status, resyncIfOk: bool) returns (st: Status)
      requires Answered(trigger)
      modifies this, link`ready, link`low, link`syncs, link`target, link`pad, link`log
      ensures link.log == if trigger != Ok || resyncIfOk then Then(old(link.log), CommReset(st == Ok)) else old(link.log)
      ensures trigger == Ok && !resyncIfOk ==> st == Ok
      ensures old(Undisturbed()) ==> Undisturbed() && st == Ok
      ensures old(Healthy()) ==> Healthy()
      ensures old(message) || st != Ok ==> message
      ensures SameTriggers(link.log, old(link.log)) && NoMode(link.log, old(link.log))
      ensures st == Ok || st == Timeout
      ensures link.target.Conforming? == old(link.target).Conforming?
      ensures link.target.Conforming? ==> link.target.dev == old(link.target).dev
    {
      if trigger != Ok || resyncIfOk {
        st := Resync();
        if st != Ok {
          message := true;
        }
      } else {
        st := Ok;
      }
    }

    /** The write of zeros to a whole block. */
    method WriteZeros(block: nat) returns (st: Status)
      requires block < U32 && block % BLOCK == 0
      modifies link`target, link`pad, link`log
      ensures Resyncs(link.log) == Resyncs(old(link.log))
      ensures old(Healthy()) ==> link.ready && link.low && Clear(link.target) && st == Ok
      ensures old(Healthy()) ==> TriggersTaken(link.log) == TriggersTaken(old(link.log))
      ensures old(Healthy()) ==> link.target.dev == WriteAll(STM8, old(link.target).dev, block, Zeros(BLOCK))
      ensures Answered(st)
      ensures Triggers(link.log) == Triggers(old(link.log)) + [(block, Zeros(BLOCK))]
      ensures NoMode(link.log, old(link.log))
      ensures TriggersTaken(link.log) ==> TriggersTaken(old(link.log))
      ensures link.target.Conforming? == old(link.target).Conforming?
      ensures link.m == STM8 && link.target.Conforming? && TriggersTaken(link.log)
          ==> link.target.dev == WriteAll(STM8, old(link.target).dev, block, Zeros(BLOCK))
    {
      ghost var taken, done;
      ghost var zeros := Zeros(BLOCK);
      st, taken, done := link.DmWrite(block, Zeros(BLOCK));
      OneChunk(link.log, old(link.log), block, zeros, done, taken, st);
      ZerosLogged(link.log, old(link.log), block, zeros, st, taken);
      assert zeros[..BLOCK] == zeros;
    }

    /** Zeros to the whole block, resynchronisation, and the wait for the controller. */
    method RunErase(block: nat) returns (st: Status)
      requires block < U32 && block % BLOCK == 0
      modifies this, link`ready, link`low, link`syncs, link`target, link`pad, link`log
      ensures st == Ok ==> Resyncs(link.log) == Resyncs(old(link.log)) + 1
      ensures old(message) || st != Ok ==> message
      ensures Triggers(link.log) == Triggers(old(link.log)) + [(block, Zeros(BLOCK))]
      ensures NoMode(link.log, old(link.log))
      ensures TriggersTaken(link.log) ==> TriggersTaken(old(link.log))
      ensures link.target.Conforming? == old(link.target).Conforming?
      ensures st == Ok && link.m == STM8 && link.target.Conforming? && TriggersTaken(link.log)
          ==> link.target.dev == Settled(WriteAll(STM8, old(link.target).dev, block, Zeros(BLOCK)))
      ensures old(Healthy()) && Erasable(old(link.target).dev, block)
          ==> st == Ok && Healthy() && Ready(link.target.dev) && TriggersTaken(link.log) == TriggersTaken(old(link.log))
    {
      ghost var before := link.target;
      if before.Conforming? && Erasable(before.dev, block) && Prompt(before.dev) {
        EraseStarts(before.dev, block);
      }
      st := WriteZeros(block);
      st := AfterTrigger(st, true);
      if st == Ok {
        st := WaitFlashComplete();
      }
    }

    /** One round of the erase loop: enter erase mode, write the block, resynchronise, wait,
        leave the mode. */
    method EraseBlock(block: nat) returns (st: Status)
      requires block < U32 && block % BLOCK == 0
      modifies this, link`ready, link`low, link`syncs, link`target, link`pad, link`log
      ensures old(Healthy()) && Ready(old(link.target).dev) && ProgramBlock(block)
          ==> st == Ok && Healthy() && Ready(link.target.dev) && TriggersTaken(link.log) == TriggersTaken(old(link.log))
      ensures Cr2Writes(link.log) > Cr2Writes(old(link.log)) && Cleared(link.log)
      ensures st == Ok ==> NormalMode(link.log)
      ensures st == Ok ==> Triggers(link.log) == Triggers(old(link.log)) + [(block, Zeros(BLOCK))]
      ensures || Triggers(link.log) == Triggers(old(link.log))
              || Triggers(link.log) == Triggers(old(link.log)) + [(block, Zeros(BLOCK))]
      ensures TriggersTaken(link.log) ==> TriggersTaken(old(link.log))
      ensures link.target.Conforming? == old(link.target).Conforming?
      ensures st == Ok && link.m == STM8 && link.target.Conforming? && TriggersTaken(link.log)
              && ProgramBlock(block) && old(link.target).dev.work.Quiet? && old(link.target).dev.pul
          ==> Reached(old(link.target).dev, link.target.dev, Stored(old(link.target).dev.mem, block, Zeros(BLOCK)))
    {
      st := SetCr2(MODE_ERASE);
      if st != Ok {
        var _ := SetCr2(0);
        message := true;
        return;
      }
      st := RunErase(block);
      if st != Ok {
        var _ := SetCr2(0);
        message := true;
        return;
      }
      ghost var before := old(link.target);
      if before.Conforming? && link.m == STM8 && ProgramBlock(block) && before.dev.work.Quiet? && before.dev.pul {
        EraseSequence(InMode(before.dev, MODE_ERASE), block);
        WorkReached(before.dev, MODE_ERASE, block, Zeros(BLOCK), 0);
      }
      st := SetCr2(0);
      if st != Ok {
        message := true;
      }
    }

    /** The next block of an erase loop. */
    method EraseNext(start: nat, ghost n: nat, block: nat, ghost origin: Target, ghost log: Log) returns (st: Status)
      requires block < U32 && start % BLOCK == 0 && block == start + BLOCK * n
      requires Erasing(link.log, log, start, n) && ErasedTo(link.m, origin, link.target, link.log, start, n)
      modifies this, link`ready, link`low, link`syncs, link`target, link`pad, link`log
      ensures old(Healthy()) && Ready(old(link.target).dev) && ProgramBlock(block)
          ==> st == Ok && Healthy() && Ready(link.target.dev) && TriggersTaken(link.log) == TriggersTaken(old(link.log))
      ensures Cr2Writes(link.log) > Cr2Writes(log) && Cleared(link.log)
      ensures link.target.Conforming? == origin.Conforming?
      ensures TriggersTaken(link.log) ==> TriggersTaken(log)
      ensures st == Ok ==> Erasing(link.log, log, start, n + 1) && ErasedTo(link.m, origin, link.target, link.log, start, n + 1)
      ensures exists k :: n <= k <= n + 1 && Triggers(link.log) == Triggers(log) + EraseWrites(start, k)
    {
      ghost var t := link.target;
      st := EraseBlock(block);
      if t.Conforming? && FLASH_START <= start && start + BLOCK * (n + 1) <= FLASH_START + FLASH_SIZE {
        assert ProgramBlock(block);
        BlockErased(link.m, origin, t, link.target, start, n, block);
      }
      assert Triggers(log) + EraseWrites(start, n + 1) == (Triggers(log) + EraseWrites(start, n)) + [(block, Zeros(BLOCK))];
    }

    /** The erase loop. */
    method EraseBlocks(start: nat, end: nat, ghost total: nat, ghost origin: Target, ghost log: Log) returns (st: Status)
      requires start % BLOCK == 0 && end < U32 && (if end <= start then total == 0 else end == start + BLOCK * total)
      requires Erasing(link.log, log, start, 0) && ErasedTo(link.m, origin, link.target, link.log, start, 0)
      modifies this, link`ready, link`low, link`syncs, link`target, link`pad, link`log
      ensures old(Healthy()) && Ready(old(link.target).dev) && FLASH_START <= start && end <= FLASH_START + FLASH_SIZE
          ==> st == Ok && Healthy() && Ready(link.target.dev) && TriggersTaken(link.log) == TriggersTaken(old(link.log))
      ensures total == 0 ==> st == Ok && link.log == old(link.log)
      ensures Cr2Writes(link.log) > Cr2Writes(log) ==> Cleared(link.log) && (st == Ok ==> NormalMode(link.log))
      ensures st == Ok ==> Triggers(link.log) == Triggers(log) + EraseWrites(start, total)
      ensures st == Ok ==> ErasedTo(link.m, origin, link.target, link.log, start, total)
      ensures TriggersTaken(link.log) ==> TriggersTaken(log)
      ensures link.target.Conforming? == origin.Conforming?
      ensures exists k :: 0 <= k <= total && Triggers(link.log) == Triggers(log) + EraseWrites(start, k)
    {
      st := Ok;
      var block := start;
      ghost var n := 0;
      while block < end
        invariant block == start + BLOCK * n && n <= total && st == Ok && (n == 0 ==> link.log == old(link.log))
        invariant old(Healthy()) && Ready(old(link.target).dev) && FLASH_START <= start && end <= FLASH_START + FLASH_SIZE
              ==> Healthy() && Ready(link.target.dev) && TriggersTaken(link.log) == TriggersTaken(old(link.log))
        invariant Erasing(link.log, log, start, n) && ErasedTo(link.m, origin, link.target, link.log, start, n)
      {
        NextBlock(start, n, total, block, end);
        st := EraseNext(start, n, block, origin, log);
        if st != Ok {
          return;
        }
        block, n := block + BLOCK, n + 1;
      }
    }

    /** The loop with its rounded bounds. */
    method EraseRounded(address: nat, length: nat, ghost origin: Target, ghost log: Log) returns (st: Status)
      requires length > 0 && address + length < U32
      requires Erasing(link.log, log, BlockStart(address), 0)
      requires ErasedTo(link.m, origin, link.target, link.log, BlockStart(address), 0)
      modifies this, link`ready, link`low, link`syncs, link`target, link`pad, link`log
      ensures old(Healthy()) && Ready(old(link.target).dev) && InFlash(address, length)
          ==> st == Ok && Healthy() && Ready(link.target.dev) && TriggersTaken(link.log) == TriggersTaken(old(link.log))
      ensures U32 - BLOCK < address + length ==> st == Ok && link.log == old(link.log)
      ensures Cr2Writes(link.log) > Cr2Writes(log) ==> Cleared(link.log) && (st == Ok ==> NormalMode(link.log))
      ensures st == Ok ==> Triggers(link.log) == Triggers(log) + EraseWrites(BlockStart(address), BlockCount(address, length))
      ensures st == Ok ==> ErasedTo(link.m, origin, link.target, link.log, BlockStart(address), BlockCount(address, length))
      ensures TriggersTaken(link.log) ==> TriggersTaken(log)
      ensures link.target.Conforming? == origin.Conforming?
      ensures exists n ::
                && 0 <= n <= BlockCount(address, length)
                && Triggers(link.log) == Triggers(log) + EraseWrites(BlockStart(address), n)
    {
      var start, last := BlockStart(address), RoundedEnd(address + length);
      ghost var total := BlockCount(address, length);
      Rounded(address, length, start, last, total);
      st := EraseBlocks(start, last, total, origin, log);
    }

    /** stm8_flash_erase_range. A range that ends in the last 63 bytes below 2^32 is answered
        with OK although nothing is erased. */
    method EraseRange(address: nat, length: nat) returns (st: Status)
      requires address < U32 && length < U32
      modifies this, link`ready, link`low, link`syncs, link`target, link`pad, link`log
      ensures old(Healthy()) && Ready(old(link.target).dev) && length > 0 && InFlash(address, length)
          ==> st == Ok && Healthy() && Ready(link.target.dev) && TriggersTaken(link.log) == TriggersTaken(old(link.log))
      ensures Cr2Writes(link.log) > Cr2Writes(old(link.log)) ==> Cleared(link.log) && (st == Ok ==> NormalMode(link.log))
      ensures st == Ok && length > 0 ==>
                && address + length < U32
                && Triggers(link.log) == Triggers(old(link.log)) + EraseWrites(BlockStart(address), BlockCount(address, length))
      ensures EraseBegun(link.log, old(link.log), address, length)
      ensures length == 0 ==> st == Ok && link.target == old(link.target)
      ensures old(Reaching()) && length > 0 && !Pul(link.m.read(old(link.target).dev, IAPSR).0)
          ==> st == TargetError && SameTriggers(link.log, old(link.log)) && NoMode(link.log, old(link.log))
      ensures old(Reaching()) && length > 0 && Pul(link.m.read(old(link.target).dev, IAPSR).0) && address + length >= U32
          ==> st == BadArgument && SameTriggers(link.log, old(link.log)) && NoMode(link.log, old(link.log))
      ensures old(Healthy()) && old(link.target).dev.pul && length > 0 && U32 - BLOCK < address + length < U32
          ==> st == Ok && SameTriggers(link.log, old(link.log)) && NoMode(link.log, old(link.log))
      ensures TriggersTaken(link.log) ==> TriggersTaken(old(link.log))
      ensures link.target.Conforming? == old(link.target).Conforming?
      ensures st == Ok && length > 0
          ==> ErasedTo(link.m, old(link.target), link.target, link.log, BlockStart(address), BlockCount(address, length))
    {
      message := false;
      ghost var before, log := link.target, link.log;
      assert Triggers(log) + EraseWrites(BlockStart(address), 0) == Triggers(log);
      if length == 0 {
        return Ok;
      }
      st := RequireProgramUnlocked();
      if st != Ok {
        message := true;
        return;
      }
      var end := (address + length) % U32;
      if end < address {
        return BadArgument;
      }
      StartsErased(link.m, before, link.target, link.log, BlockStart(address));
      st := EraseRounded(address, length, before, log);
    }

    /** The write that programs a byte, and what follows a NACK or a timeout. */
    method TriggerByte(address: nat, data: seq<Byte>, i: nat, ghost log: Log) returns (st: Status, ghost taken: bool)
      requires address < U32 && i < |data| && data[i] != 0 && Programming(link.log, log, address, data, i)
      modifies this, link`ready, link`low, link`syncs, link`target, link`pad, link`log
      ensures old(Undisturbed()) ==> Undisturbed() && st == Ok && taken
      ensures old(Undisturbed()) ==> TriggersTaken(link.log) == TriggersTaken(old(link.log))
      ensures st != Ok ==> message
      ensures Programming(link.log, log, address, data, i + 1)
      ensures TriggersTaken(link.log) ==> TriggersTaken(old(link.log))
      ensures TriggersTaken(link.log) && IsTrigger(ByteAt(address, i), 1) ==> taken
      ensures link.target.Conforming? == old(link.target).Conforming?
      ensures link.target.Conforming? ==>
                link.target.dev == if taken then link.m.write(old(link.target).dev, At(ByteAt(address, i)), data[i])
                                   else old(link.target).dev
    {
      ghost var n;
      st, n := WriteU8(ByteAt(address, i), data[i]);
      taken := n > 0;
      assert data[..i + 1][..i] == data[..i];
      st := AfterTrigger(st, false);
    }

    /** The wait failed, and the controller is still in programming mode. */
    ghost predicate WaitFails(st: Status, waited: bool)
      reads link
    {
      st == TargetError && waited && Undisturbed() && Mode(link.target.dev, MODE_PRG)
    }

    /** The controller waits for the next byte. */
    ghost predicate Steady()
      reads link
    {
      Undisturbed() && Ready(link.target.dev) && Mode(link.target.dev, MODE_PRG)
    }

    /** And has carried out `n` of the operations it had ahead. */
    ghost predicate Underway(delays: seq<nat>, n: nat)
      reads link
    {
      Steady() && link.target.dev.delays == Drop(delays, n)
    }

    /** The wait for a byte that was triggered. */
    method AwaitByte(address: nat, data: seq<Byte>, i: nat, ghost log: Log) returns (st: Status)
      requires i <= |data| && Programming(link.log, log, address, data, i)
      modifies this, link`target, link`pad, link`log
      ensures old(Undisturbed()) && Programs(old(link.target).dev)
          ==> if old(link.target).dev.work.polls >= WAIT_POLLS then WaitFails(st, true)
              else st == Ok && Steady() && link.target.dev.delays == old(link.target).dev.delays
      ensures SameTriggers(link.log, old(link.log)) && Programming(link.log, log, address, data, i)
      ensures st != Ok ==> message
      ensures link.target.Conforming? == old(link.target).Conforming?
      ensures st == Ok && link.m == STM8 && link.target.Conforming? ==> link.target.dev == Settled(old(link.target).dev)
    {
      st := WaitFlashComplete();
    }

    /** The loop has carried out `n` operations, or one of them has outlasted the wait. */
    ghost predicate Ran(delays: seq<nat>, n: nat, st: Status, waited: bool)
      reads link
    {
      if Outlasts(delays, n) then WaitFails(st, waited) else st == Ok && Underway(delays, n)
    }

    /** One byte of a program loop. */
    method ProgramByte(address: nat, data: seq<Byte>, i: nat, ghost origin: Target, ghost log: Log)
      returns (st: Status, ghost waited: bool)
      requires address < U32 && i < |data| && data[i] != 0
      requires Programming(link.log, log, address, data, i)
      requires ProgrammedTo(link.m, origin, link.target, link.log, address, data, i)
      modifies this, link`ready, link`low, link`syncs, link`target, link`pad, link`log
      ensures old(Undisturbed()) && Programmable(old(link.target).dev, address + i)
          ==> && TriggersTaken(link.log) == TriggersTaken(old(link.log))
              && if Outlasts(old(link.target).dev.delays, 1) then WaitFails(st, waited)
                 else st == Ok && Underway(old(link.target).dev.delays, 1)
      ensures Cr2Writes(link.log) > Cr2Writes(log)
      ensures link.target.Conforming? == origin.Conforming?
      ensures TriggersTaken(link.log) ==> TriggersTaken(log)
      ensures st == Ok ==> Programming(link.log, log, address, data, i + 1)
      ensures st == Ok ==> ProgrammedTo(link.m, origin, link.target, link.log, address, data, i + 1)
      ensures st != Ok ==> message && (Cleared(link.log) <==> !waited)
      ensures ProgramSent(link.log, log, address, data, i + 1)
    {
      waited := false;
      ghost var t := link.target;
      ghost var taken;
      if t.Conforming? && Programmable(t.dev, address + i) {
        ProgramsAt(t.dev, address, i, data[i]);
      }
      st, taken := TriggerByte(address, data, i, log);
      ghost var u := link.target;
      if st != Ok {
        var _ := SetCr2(0);
        return;
      }
      waited := true;
      st := AwaitByte(address, data, i + 1, log);
      if st == Ok && t.Conforming? {
        NextProgrammed(link.m, origin, t, u, link.target, address, data, i, taken);
      }
    }

    /** One round of the program loop; a zero is skipped. */
    method NextByte(address: nat, data: seq<Byte>, i: nat, ghost origin: Target, ghost log: Log,
        ghost delays: seq<nat>, ghost count: nat, ghost next: nat) returns (st: Status, ghost waited: bool)
      requires address < U32 && i < |data| && count == NonZeros(data[..i]) && next == NonZeros(data[..i + 1])
      requires Programming(link.log, log, address, data, i)
      requires ProgrammedTo(link.m, origin, link.target, link.log, address, data, i)
      modifies this, link`ready, link`low, link`syncs, link`target, link`pad, link`log
      ensures old(Ran(delays, count, Ok, false)) && InProgram(address + i)
          ==> Ran(delays, next, st, waited) && TriggersTaken(link.log) == TriggersTaken(old(link.log))
      ensures Cr2Writes(link.log) > Cr2Writes(log)
      ensures link.target.Conforming? == origin.Conforming?
      ensures TriggersTaken(link.log) ==> TriggersTaken(log)
      ensures st == Ok ==> Programming(link.log, log, address, data, i + 1)
      ensures st == Ok ==> ProgrammedTo(link.m, origin, link.target, link.log, address, data, i + 1)
      ensures st != Ok ==> message && (Cleared(link.log) <==> !waited)
      ensures ProgramSent(link.log, log, address, data, i + 1)
    {
      NextOutlasts(delays, data, i, count);
      if data[i] == 0 {
        SkipsZero(link.m, origin, link.target, link.log, log, address, data, i);
        return Ok, false;
      }
      st, waited := ProgramByte(address, data, i, origin, log);
    }

    /** The program loop. */
    method ProgramBytes(address: nat, data: seq<Byte>, ghost origin: Target, ghost log: Log)
      returns (st: Status, ghost waited: bool)
      requires address < U32
      requires Programming(link.log, log, address, data, 0)
      requires ProgrammedTo(link.m, origin, link.target, link.log, address, data, 0)
      modifies this, link`ready, link`low, link`syncs, link`target, link`pad, link`log
      ensures Cr2Writes(link.log) > Cr2Writes(log)
      ensures link.target.Conforming? == origin.Conforming?
      ensures TriggersTaken(link.log) ==> TriggersTaken(log)
      ensures st == Ok ==> Programming(link.log, log, address, data, |data|)
      ensures st == Ok ==> ProgrammedTo(link.m, origin, link.target, link.log, address, data, |data|)
      ensures st != Ok ==> message && (Cleared(link.log) <==> !waited)
      ensures ProgramBegun(link.log, log, address, data)
      ensures old(Steady()) && InFlash(address, |data|)
          ==> && Ran(old(link.target).dev.delays, NonZeros(data), st, waited)
              && TriggersTaken(link.log) == TriggersTaken(old(link.log))
    {
      st, waited := Ok, false;
      var i := 0;
      ghost var delays, count := if link.target.Conforming? then link.target.dev.delays else [], 0;
      ghost var steady := Steady() && InFlash(address, |data|);
      assert ProgramSent(link.log, log, address, data, i);
      while i < |data| && st == Ok
        invariant i <= |data| && count == NonZeros(data[..i]) && Cr2Writes(link.log) > Cr2Writes(log)
        invariant link.target.Conforming? == origin.Conforming?
        invariant TriggersTaken(link.log) ==> TriggersTaken(log)
        invariant steady ==> Ran(delays, count, st, waited) && TriggersTaken(link.log) == TriggersTaken(old(link.log))
        invariant st == Ok ==> Programming(link.log, log, address, data, i)
        invariant st == Ok ==> ProgrammedTo(link.m, origin, link.target, link.log, address, data, i)
        invariant st != Ok ==> message && (Cleared(link.log) <==> !waited)
        invariant ProgramSent(link.log, log, address, data, i)
      {
        ghost var next := NonZeros(data[..i + 1]);
        st, waited := NextByte(address, data, i, origin, log, delays, count, next);
        i, count := i + 1, next;
      }
      if steady {
        RanAll(delays, data, i, count, st, waited);
      }
    }

    lemma RanAll(delays: seq<nat>, data: seq<Byte>, i: nat, count: nat, st: Status, waited: bool)
      requires i <= |data| && count == NonZeros(data[..i]) && Ran(delays, count, st, waited) && (st == Ok ==> i == |data|)
      ensures Ran(delays, NonZeros(data), st, waited)
    {
      MoreCounted(data, i);
      assert data[..|data|] == data;
    }

    /** How a write of a block to the flash ends on an undisturbed link, the controller having
        had these operations ahead: PRG is left set if one of them outlasts the polling. */
    ghost predicate Written(delays: seq<nat>, data: seq<Byte>, exit: Exit, st: Status)
      reads link
    {
      && Undisturbed()
      && if Outlasts(delays, NonZeros(data)) then exit == WaitFailed && st == TargetError && Mode(link.target.dev, MODE_PRG)
         else && exit == Complete && Mode(link.target.dev, 0) && Ready(link.target.dev)
              && link.target.dev.delays == Drop(delays, NonZeros(data))
    }

    /** The loop and what follows it. */
    method ProgramAndClear(address: nat, data: seq<Byte>, ghost origin: Target, ghost log: Log)
      returns (st: Status, ghost exit: Exit)
      requires address < U32
      requires Programming(link.log, log, address, data, 0)
      requires ProgrammedTo(link.m, origin, link.target, link.log, address, data, 0)
      modifies this, link`ready, link`low, link`syncs, link`target, link`pad, link`log
      ensures old(Steady()) && InFlash(address, |data|) ==> Written(old(link.target).dev.delays, data, exit, st)
      ensures old(Steady()) && InFlash(address, |data|) && exit == Complete
          ==> TriggersTaken(link.log) == TriggersTaken(old(link.log))
      ensures st == Ok <==> exit == Complete
      ensures exit != NotStarted && exit != PrgFailed && Cr2Writes(link.log) > Cr2Writes(log)
      ensures Cleared(link.log) <==> exit != WaitFailed
      ensures exit == Complete ==> NormalMode(link.log)
      ensures exit == Complete && AllTriggers(address, |data|)
          ==> Triggers(link.log) == Triggers(log) + ProgramWrites(address, data)
      ensures TriggersTaken(link.log) ==> TriggersTaken(log)
      ensures link.target.Conforming? == origin.Conforming?
      ensures ProgramBegun(link.log, log, address, data)
      ensures exit == Complete ==> BlockProgrammed(link.m, origin, link.target, link.log, address, data)
    {
      ghost var waited;
      st, waited := ProgramBytes(address, data, origin, log);
      if st != Ok {
        assert message;
        return st, if waited then WaitFailed else TriggerFailed;
      }
      assert data[..|data|] == data;
      EndsProgramming(link.m, origin, link.target, link.log, address, data);
      st := SetCr2(0);
      assert ProgramSent(link.log, log, address, data, |data|);
      if st != Ok {
        message := true;
        return st, ClearFailed;
      }
      return Ok, Complete;
    }

    /** PUL is checked and PRG set; `Complete` if both succeed. */
    method BeginBlock(ghost address: nat, ghost data: seq<Byte>) returns (st: Status, ghost exit: Exit)
      modifies this, link`target, link`pad, link`log
      ensures st == Ok <==> exit == Complete
      ensures exit == Complete || exit == NotStarted || exit == PrgFailed
      ensures old(Undisturbed()) && Ready(old(link.target).dev)
          ==> st == Ok && Steady() && link.target.dev.delays == old(link.target).dev.delays
      ensures SameTriggers(link.log, old(link.log))
      ensures exit == NotStarted ==> Cr2Writes(link.log) == Cr2Writes(old(link.log))
      ensures exit == PrgFailed ==> Cr2Writes(link.log) > Cr2Writes(old(link.log)) && !Cleared(link.log)
      ensures exit == Complete ==> Programming(link.log, old(link.log), address, data, 0)
      ensures link.target.Conforming? == old(link.target).Conforming?
      ensures old(Reaching())
          ==> var (v, d) := link.m.read(old(link.target).dev, IAPSR);
              && (exit == NotStarted <==> !Pul(v))
              && (exit == PrgFailed <==> Pul(v) && !ReadsBack(link.m, d, MODE_PRG))
              && (exit == PrgFailed ==> link.target.dev == Ncr2Read(link.m, d, MODE_PRG).1)
              && (exit != Complete ==> st == TargetError)
      ensures exit == Complete ==> ProgrammedTo(link.m, old(link.target), link.target, link.log, address, data, 0)
    {
      ghost var before := link.target;
      st := RequireProgramUnlocked();
      if st != Ok {
        message := true;
        return st, NotStarted;
      }
      st := SetCr2(MODE_PRG);
      if st != Ok {
        message := true;
        return st, PrgFailed;
      }
      StartsProgramming(link.m, before, link.target, link.log, address, data);
      assert data[..0] == [];
      exit := Complete;
    }

    /** stm8_flash_write_block, with the way it ended. The clear after a failed wait is
        guarded by an empty message, which a failed wait never leaves: on an undisturbed link
        to an unlocked controller, PRG stays set exactly if the controller is busy for 2000
        polls with one of the bytes that are not zero; and setting PRG fails, on whatever
        device, exactly if the two mode registers do not read back. */
    method WriteBlock(address: nat, data: seq<Byte>) returns (st: Status, ghost exit: Exit)
      requires address < U32
      modifies this, link`ready, link`low, link`syncs, link`target, link`pad, link`log
      ensures old(Healthy()) && Ready(old(link.target).dev) && InFlash(address, |data|)
          ==> st == Ok && Healthy() && Ready(link.target.dev) && TriggersTaken(link.log) == TriggersTaken(old(link.log))
      ensures old(Undisturbed()) && Ready(old(link.target).dev) && InFlash(address, |data|) && data != []
          ==> Written(old(link.target).dev.delays, data, exit, st)
      ensures st == Ok <==> exit == Complete || (exit == NotStarted && data == [])
      ensures exit == NotStarted ==> Cr2Writes(link.log) == Cr2Writes(old(link.log))
      ensures data == [] ==> link.target == old(link.target) && link.log == old(link.log)
      ensures exit != NotStarted ==> Cr2Writes(link.log) > Cr2Writes(old(link.log))
                                     && (Cleared(link.log) <==> exit != PrgFailed && exit != WaitFailed)
      ensures exit == Complete ==> NormalMode(link.log)
      ensures exit == Complete && AllTriggers(address, |data|)
          ==> Triggers(link.log) == Triggers(old(link.log)) + ProgramWrites(address, data)
      ensures TriggersTaken(link.log) ==> TriggersTaken(old(link.log))
      ensures link.target.Conforming? == old(link.target).Conforming?
      ensures old(Reaching()) && data != []
          ==> var (v, d) := link.m.read(old(link.target).dev, IAPSR);
              && (exit == NotStarted <==> !Pul(v))
              && (exit == PrgFailed <==> Pul(v) && !ReadsBack(link.m, d, MODE_PRG))
              && (exit == PrgFailed ==> link.target.dev == Ncr2Read(link.m, d, MODE_PRG).1)
              && (exit == NotStarted || exit == PrgFailed ==> st == TargetError)
      ensures ProgramBegun(link.log, old(link.log), address, data)
      ensures exit == Complete ==> BlockProgrammed(link.m, old(link.target), link.target, link.log, address, data)
    {
      message := false;
      ghost var before, log := link.target, link.log;
      NotBegun(link.log, log, address, data);
      if data == [] {
        return Ok, NotStarted;
      }
      st, exit := BeginBlock(address, data);
      NotBegun(link.log, log, address, data);
      if st == Ok {
        st, exit := ProgramAndClear(address, data, before, log);
      }
    }

    /** A key written to DUKR. */
    method WriteKey(v: Byte) returns (st: Status)
      modifies link`target, link`pad, link`log
      ensures old(Healthy()) ==> Healthy() && st == Ok && link.target.dev == WriteByte(old(link.target).dev, DUKR, v)
      ensures NoMode(link.log, old(link.log)) && (TriggersTaken(link.log) ==> TriggersTaken(old(link.log)))
      ensures Triggers(link.log) == Triggers(old(link.log)) + [(DUKR, [v])]
      ensures link.target.Conforming? == old(link.target).Conforming?
      ensures link.m == STM8 && link.target.Conforming? ==> Opened(old(link.target).dev, link.target.dev)
    {
      ghost var taken;
      ghost var before := link.target;
      st, taken := WriteU8(DUKR, v);
      if before.Conforming? {
        KeyOpens(before.dev, v);
      }
    }

    /** A poll of IAPSR on a quiet controller. */
    method ReadDul() returns (st: Status, dul: bool)
      modifies link`target, link`pad, link`log
      ensures old(Healthy()) && Openable(old(link.target).dev)
          ==> Healthy() && st == Ok && Openable(link.target.dev) && dul == link.target.dev.dul == old(link.target).dev.dul
      ensures old(Healthy()) && old(link.target).dev.work.Quiet?
          ==> Healthy() && st == Ok && link.target.dev.work.Quiet? && dul == link.target.dev.dul == old(link.target).dev.dul
      ensures Triggers(link.log) == Triggers(old(link.log))
      ensures NoMode(link.log, old(link.log)) && (TriggersTaken(link.log) ==> TriggersTaken(old(link.log)))
      ensures link.target.Conforming? == old(link.target).Conforming?
      ensures link.m == STM8 && link.target.Conforming? && old(link.target).dev.work.Quiet? && st == Ok ==>
                Opened(old(link.target).dev, link.target.dev) && link.target.dev.dul == dul
    {
      ghost var before := link.target;
      var v;
      st, v := ReadIapsr();
      dul := Dul(v);
      if before.Conforming? && before.dev.work.Quiet? {
        SettledOpened(before.dev);
      }
    }

    /** The two keys. */
    method WriteKeys() returns (st: Status)
      modifies link`target, link`pad, link`log
      ensures old(Healthy()) && Openable(old(link.target).dev) && !old(link.target).dev.dul
          ==> Healthy() && st == Ok && Openable(link.target.dev) && link.target.dev.dul
      ensures KeysSent(link.log, old(link.log))
      ensures NoMode(link.log, old(link.log)) && (TriggersTaken(link.log) ==> TriggersTaken(old(link.log)))
      ensures link.target.Conforming? == old(link.target).Conforming?
      ensures link.m == STM8 && link.target.Conforming? ==> Opened(old(link.target).dev, link.target.dev)
    {
      ghost var locked := link.target;
      if locked.Conforming? && Openable(locked.dev) && !locked.dev.dul {
        KeysOpen(locked.dev);
      }
      st := WriteKey(0xAE);
      if st == Ok {
        st := WriteKey(0x56);
      }
    }

    /** wait_iapsr_mask, for DUL. */
    method WaitDul() returns (st: Status)
      modifies link`target, link`pad, link`log
      ensures old(Healthy()) && Openable(old(link.target).dev) && old(link.target).dev.dul
          ==> Healthy() && st == Ok && Openable(link.target.dev)
      ensures old(Healthy()) && old(link.target).dev.work.Quiet? && !old(link.target).dev.dul ==> st == TargetError
      ensures NoMode(link.log, old(link.log)) && (TriggersTaken(link.log) ==> TriggersTaken(old(link.log)))
      ensures Triggers(link.log) == Triggers(old(link.log))
      ensures link.target.Conforming? == old(link.target).Conforming?
      ensures link.m == STM8 && link.target.Conforming? && old(link.target).dev.work.Quiet? && st == Ok ==>
                Opened(old(link.target).dev, link.target.dev) && link.target.dev.dul
    {
      for attempt := 0 to MASK_POLLS
        invariant old(Healthy()) && Openable(old(link.target).dev) && old(link.target).dev.dul
              ==> attempt == 0 && Healthy() && Openable(link.target.dev) && link.target.dev.dul
        invariant old(Healthy()) && old(link.target).dev.work.Quiet? && !old(link.target).dev.dul
              ==> Healthy() && link.target.dev.work.Quiet? && !link.target.dev.dul
        invariant NoMode(link.log, old(link.log)) && (TriggersTaken(link.log) ==> TriggersTaken(old(link.log)))
        invariant Triggers(link.log) == Triggers(old(link.log))
        invariant link.target.Conforming? == old(link.target).Conforming?
        invariant link.m == STM8 && link.target.Conforming? && old(link.target).dev.work.Quiet? ==>
                    Opened(old(link.target).dev, link.target.dev)
      {
        var dul;
        st, dul := ReadDul();
        if st != Ok || dul {
          return;
        }
      }
      return TargetError;
    }

    /** stm8_flash_unlock_eeprom */
    method UnlockEeprom() returns (st: Status)
      modifies link`target, link`pad, link`log
      ensures old(Healthy()) && Openable(old(link.target).dev) ==> Healthy() && st == Ok && Openable(link.target.dev)
      ensures KeysSent(link.log, old(link.log))
      ensures NoMode(link.log, old(link.log)) && (TriggersTaken(link.log) ==> TriggersTaken(old(link.log)))
      ensures link.target.Conforming? == old(link.target).Conforming?
      ensures link.m == STM8 && link.target.Conforming? && old(link.target).dev.work.Quiet? && st == Ok ==>
                Opened(old(link.target).dev, link.target.dev) && link.target.dev.dul
    {
      var dul;
      st, dul := ReadDul();
      if st != Ok || dul {
        return;
      }
      st := WriteKeys();
      if st != Ok {
        return;
      }
      st := WaitDul();
    }

    /** The write of an option byte, resynchronisation, and the wait for the controller. */
    method RunOption(address: nat, value: Byte) returns (st: Status)
      requires InOption(address)
      modifies this, link`ready, link`low, link`syncs, link`target, link`pad, link`log
      ensures st == Ok ==> Resyncs(link.log) == Resyncs(old(link.log)) + 1
      ensures old(message) || st != Ok ==> message
      ensures NoMode(link.log, old(link.log))
      ensures Triggers(link.log) == Triggers(old(link.log)) + [(address, [value])]
      ensures TriggersTaken(link.log) ==> TriggersTaken(old(link.log))
      ensures link.target.Conforming? == old(link.target).Conforming?
      ensures st == Ok && link.m == STM8 && link.target.Conforming? && TriggersTaken(link.log)
          ==> link.target.dev == Settled(WriteByte(old(link.target).dev, address, value))
      ensures old(Healthy()) && OptionReady(old(link.target).dev) ==> st == Ok && Healthy()
    {
      ghost var before := link.target;
      if before.Conforming? && Prompt(before.dev) && OptionReady(before.dev) {
        OptionPrompt(before.dev, address, value);
      }
      ghost var taken;
      st, taken := WriteU8(address, value);
      st := AfterTrigger(st, true);
      if st == Ok {
        st := WaitFlashComplete();
      }
    }

    /** The option byte in option mode, which is left whatever happens. */
    method OptionInMode(address: nat, value: Byte, ghost origin: Target) returns (st: Status)
      requires InOption(address)
      modifies this, link`ready, link`low, link`syncs, link`target, link`pad, link`log
      ensures old(Healthy()) && old(link.target).dev.dul && Openable(old(link.target).dev) ==> st == Ok && Healthy()
      ensures st != Ok ==> message
      ensures Cr2Writes(link.log) > Cr2Writes(old(link.log)) && Cleared(link.log) && (st == Ok ==> NormalMode(link.log))
      ensures Triggers(link.log) == Triggers(old(link.log)) + [(address, [value])]
          || (st != Ok && Triggers(link.log) == Triggers(old(link.log)))
      ensures TriggersTaken(link.log) ==> TriggersTaken(old(link.log))
      ensures link.target.Conforming? == old(link.target).Conforming?
      ensures st == Ok && link.m == STM8 && link.target.Conforming? && TriggersTaken(link.log)
              && origin.Conforming? && origin.dev.work.Quiet?
              && Opened(origin.dev, old(link.target).dev) && old(link.target).dev.dul
          ==> OptionStored(origin.dev, link.target.dev, address, value)
    {
      ghost var t := link.target;
      st := SetCr2(MODE_OPT);
      if st != Ok {
        var _ := SetCr2(0);
        message := true;
        return;
      }
      st := RunOption(address, value);
      if st != Ok {
        var _ := SetCr2(0);
        message := true;
        return;
      }
      if origin.Conforming? && t.Conforming? && origin.dev.work.Quiet? && Opened(origin.dev, t.dev) && t.dev.dul {
        OptionReached(origin.dev, t.dev, address, value);
      }
      st := SetCr2(0);
      if st != Ok {
        message := true;
      }
    }

    /** stm8_flash_write_option_byte */
    method WriteOptionByte(address: nat, value: Byte) returns (st: Status)
      requires address < U32
      modifies this, link`ready, link`low, link`syncs, link`target, link`pad, link`log
      ensures old(Healthy()) && Openable(old(link.target).dev) && InOption(address) ==> st == Ok && Healthy()
      ensures !InOption(address) ==> st == BadArgument && link.log == old(link.log) && link.target == old(link.target)
      ensures st != Ok ==> message
      ensures Cr2Writes(link.log) > Cr2Writes(old(link.log)) ==> Cleared(link.log) && (st == Ok ==> NormalMode(link.log))
      ensures st == Ok ==> Cr2Writes(link.log) > Cr2Writes(old(link.log))
      ensures OptionSent(link.log, old(link.log), address, value, st == Ok)
      ensures TriggersTaken(link.log) ==> TriggersTaken(old(link.log))
      ensures link.target.Conforming? == old(link.target).Conforming?
      ensures st == Ok && link.m == STM8 && link.target.Conforming? && TriggersTaken(link.log) && old(link.target).dev.work.Quiet?
          ==> OptionStored(old(link.target).dev, link.target.dev, address, value)
    {
      message := false;
      if address < OPTION_START || address >= OPTION_END {
        message := true;
        return BadArgument;
      }
      st := UnlockEeprom();
      if st != Ok {
        message := true;
        return;
      }
      ghost var keys := link.log;
      st := OptionInMode(address, value, old(link.target));
      OptionFollows(link.log, keys, old(link.log), address, value, st == Ok);
    }
  }

  /** Such a controller exists: one byte, and PRG is left set. */
  method SlowController() returns (st: Status, ghost exit: Exit, cr2: Byte)
    ensures st != Ok && exit == WaitFailed && cr2 == MODE_PRG
  {
    var mem: Memory := seq(SPACE, _ => 0);
    var d := Device(mem, 0, 255, true, false, Expecting, Expecting, false, false, {}, Quiet, [WAIT_POLLS], 0);
    var link := new SwimLink(STM8, Conforming(Phase.Idle, d, []), []);
    var _ := link.CommResetWaitSync();
    var driver := new Driver(link);
    assert d.delays[0] >= WAIT_POLLS && NonZeros([1]) == 1;
    st, exit := driver.WriteBlock(FLASH_START, [1]);
    cr2 := link.target.dev.cr2;
  }

  /** An STM8 without NCR2: a write there is lost. */
  const NO_COMPLEMENT := Machine((d: Device, a: Address) => ReadByte(d, a),
                                 (d: Device, a: Address, v: Byte) => if a == NCR2 then d else WriteByte(d, a, v))

  /** It takes PRG in CR2, and the mode does not read back. */
  method HalfSet() returns (st: Status, ghost exit: Exit, cr2: Byte)
    ensures st != Ok && exit == PrgFailed && cr2 == MODE_PRG
  {
    var mem: Memory := seq(SPACE, _ => 0);
    var d := Device(mem, 0, 255, true, false, Expecting, Expecting, false, false, {}, Quiet, [], 0);
    var link := new SwimLink(NO_COMPLEMENT, Conforming(Phase.Idle, d, []), []);
    var _ := link.CommResetWaitSync();
    var driver := new Driver(link);
    HalfModeReads(d);
    st, exit := driver.WriteBlock(FLASH_START, [1]);
    cr2 := link.target.dev.cr2;
  }

  lemma HalfModeReads(d: Device)
    requires d.work.Quiet? && d.pul && d.ncr2 == 255
    ensures var (v, e) := NO_COMPLEMENT.read(d, IAPSR);
            Pul(v) && !ReadsBack(NO_COMPLEMENT, e, MODE_PRG) && Ncr2Read(NO_COMPLEMENT, e, MODE_PRG).1.cr2 == MODE_PRG
  {
  }
}
