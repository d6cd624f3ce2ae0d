/**
The SWIM link: ROTF and WOTF transactions over the PHY, and the chunked memory accesses
of the debug module on top of them.
*/
module Link {
  import opened BitVectors
  import opened Wrappers
  import opened Stm8
  import opened Target
  import F = SwimFrame

  const CHUNK := 64

  const SWIM_CMD_ROTF := 1
  const SWIM_CMD_WOTF := 2

  datatype Status = Ok | BadArgument | Timeout | Nack | TargetError | Unsupported

  predicate Answered(st: Status) {
    st == Ok || st == Timeout || st == Nack
  }

  /** What the firmware did on the pins, newest last. `taken` is how many of the bytes a
      conforming target took, `held` whether the host held the SWIM line low meanwhile. */
  datatype Event =
    | Read(address: nat, count: nat, status: Status, data: seq<Byte>)
    | Write(address: nat, bytes: seq<Byte>, status: Status, taken: nat)
    | EntrySync(ok: bool)
    | CommReset(ok: bool)
    | Nrst(asserted: bool, held: bool)

  datatype Log = Start | Then(before: Log, event: Event)

  /** The byte frame as the C code builds it. */
  function ByteWord(v: Byte): nat {
    2 * v + (if F.ParityOf(v) then 1 else 0)
  }

  function CommandWord(command: nat): nat {
    2 * (command % 8) + (if F.Parity3(command) then 1 else 0)
  }

  /** The PHY's answer to a frame whose ACK it waits for; a longer word begins with it. */
  function AckStatus(reply: Reply): Status {
    if reply.Silence? || reply.bits == [] then Timeout
    else if reply.bits[|reply.bits| - 1] then Ok else Nack
  }

  /** The PHY's answer to an exchange that must return a data frame; the first of a read
      comes right after the ACK, as one word of eleven bits. */
  function WordFrame(reply: Reply, first: bool): Option<seq<bool>> {
    var n := if first then 11 else 10;
    if reply.Silence? || |reply.bits| < n then None
    else F.PhyFrame(reply.bits[|reply.bits| - n..])
  }

  /** After a byte frame a conforming target either took it or did not, and did if the
      link says so. */
  predicate Sent8(m: Machine, t: Target, u: Target, v: Byte, st: Status) {
    t.Conforming? ==>
      u.Conforming? &&
      var (p, d, bits) := TakeByte(m, t.phase, t.dev, v);
      && ((u.phase == t.phase && u.dev == t.dev) || (u.phase == p && u.dev == d))
      && (st == Ok && bits == [true] ==> u.phase == p && u.dev == d)
  }

  function ByteFrame(v: Byte): Sent {
    Data(LowBits(ByteWord(v), 10))
  }

  function CommandFrame(command: nat): Sent {
    Command(LowBits(CommandWord(command), 5))
  }

  lemma ByteTaken(m: Machine, phase: Phase, dev: Device, v: Byte)
    ensures Take(m, phase, dev, ByteFrame(v)) == TakeByte(m, phase, dev, v)
  {
    F.HostWordBits(v);
    F.HostByteRead(v);
  }

  lemma CommandWordIs(command: nat)
    requires command < 8
    ensures CommandWord(command) == 2 * command + (if F.Parity3(command) then 1 else 0)
  {
  }

  lemma CommandHeard(command: nat)
    requires command < 8
    ensures F.TargetCommand(LowBits(CommandWord(command), 5)) == Some(command)
  {
    CommandWordIs(command);
    F.CommandWordBits(command);
    F.CommandRead(command);
  }

  lemma CommandTaken(m: Machine, phase: Phase, dev: Device, command: nat)
    requires command == CMD_ROTF || command == CMD_WOTF
    ensures Take(m, phase, dev, CommandFrame(command)) == (Head(command == CMD_ROTF, []), dev, [true])
  {
    CommandHeard(command);
  }

  /** Either the frame passed the target by, or it took it and what it answered was subject
      to the fault. */
  lemma Exchanged(m: Machine, t: Target, sent: Sent)
    requires t.Conforming?
    ensures var (u, reply) := Exchange(m, t, sent);
            var (p, d, bits) := Take(m, t.phase, t.dev, sent);
            var fault := if t.faults == [] then Clean else t.faults[0];
            && u.Conforming?
            && ((u == t.(faults := u.faults) && (reply == Silence || reply == Heard([false])))
                || (u == t.(phase := p, dev := d, faults := u.faults) && reply == Answer(fault, bits)))
            && (t.faults == [] ==> u == t.(phase := p, dev := d) && reply == Answer(Clean, bits))
  {
  }

  /** No fault is to come: whatever is sent arrives, and so does the answer. */
  predicate Clear(t: Target) {
    t.Conforming? && t.faults == []
  }

  /** What the host is told about a frame that the target would acknowledge. */
  function ToldStatus(t: Target): Status
    requires t.Conforming?
  {
    if t.faults == [] then Ok
    else
      match t.faults[0]
      case Clean => Ok
      case Refused => Nack
      case Lost => Timeout
      case Unheard => Timeout
      case Flipped(flips) => if flips == [true] then Nack else Ok
  }

  lemma FlippedAck(flips: seq<bool>)
    ensures Answer(Flipped(flips), [true]) == Heard([flips != [true]])
  {
    if |flips| == 1 {
      assert flips == [flips[0]] && flips[1..] == [];
      assert F.Ones(flips) == (if flips[0] then 1 else 0) + F.Ones([]);
      assert XorBits([true], flips) == [!flips[0]];
    }
  }

  lemma AckTold(t: Target, fault: Fault)
    requires t.Conforming? && fault == if t.faults == [] then Clean else t.faults[0]
    ensures fault != Refused && fault != Lost ==> AckStatus(Answer(fault, [true])) == ToldStatus(t)
  {
    if fault.Flipped? {
      FlippedAck(fault.flips);
    }
  }

  lemma ByteExchanged(m: Machine, t: Target, v: Byte)
    requires t.Conforming?
    ensures var (u, reply) := Exchange(m, t, ByteFrame(v));
            Sent8(m, t, u, v, AckStatus(reply)) && (TakeByte(m, t.phase, t.dev, v).2 == [true] ==> AckStatus(reply) == ToldStatus(t))
    ensures var (u, reply) := Exchange(m, t, ByteFrame(v));
            Clear(t) && TakeByte(m, t.phase, t.dev, v).2 == [true] ==> Clear(u) && AckStatus(reply) == Ok
  {
    ByteTaken(m, t.phase, t.dev, v);
    AckTold(t, if t.faults == [] then Clean else t.faults[0]);
  }

  predicate CommandSent(t: Target, u: Target, command: nat, st: Status) {
    t.Conforming? ==>
      && u.Conforming? && u.dev == t.dev
      && (st == Ok ==> u.phase == Head(command == CMD_ROTF, []))
  }

  lemma CommandExchanged(m: Machine, t: Target, command: nat)
    requires t.Conforming? && (command == CMD_ROTF || command == CMD_WOTF)
    ensures var (u, reply) := Exchange(m, t, CommandFrame(command));
            CommandSent(t, u, command, AckStatus(reply)) && (Clear(t) ==> Clear(u)) && AckStatus(reply) == ToldStatus(t)
  {
    CommandTaken(m, t.phase, t.dev, command);
    AckTold(t, if t.faults == [] then Clean else t.faults[0]);
    Exchanged(m, t, CommandFrame(command));
  }

  /** A data frame the link accepts holds the byte the target read for it. */
  predicate GotByte(m: Machine, t: Target, u: Target, address: Address, left: nat, frame: Option<seq<bool>>)
    requires t.Conforming?
  {
    && u.Conforming?
    && (Clear(t) ==> Clear(u) && frame.Some?)
    && var (b, e) := m.read(t.dev, address);
       && (u == t.(faults := u.faults) || (u.phase == Reading(At(address + 1), left, b) && u.dev == e))
       && (frame.Some? ==> frame.value == F.DataBits(b) && u.phase == Reading(At(address + 1), left, b) && u.dev == e)
  }

  lemma WholeWord(first: bool, bits: seq<bool>)
    requires |bits| == if first then 11 else 10
    ensures WordFrame(Heard(bits), first) == F.PhyFrame(bits)
  {
    assert bits[0..] == bits;
  }

  lemma FlippedRead(first: bool, b: Byte, flips: seq<bool>)
    requires |flips| == (if first then 11 else 10) && F.Odd(flips)
    ensures WordFrame(Heard(XorBits(F.FrameBits(first, b), flips)), first) == None
  {
    WholeWord(first, XorBits(F.FrameBits(first, b), flips));
    F.OddFlipsRefused(first, b, flips);
  }

  lemma PlainFrameRead(first: bool, b: Byte)
    ensures WordFrame(Heard(F.FrameBits(first, b)), first) == Some(F.DataBits(b))
  {
    WholeWord(first, F.FrameBits(first, b));
    F.IntactRead(first, b);
  }

  lemma AnswerRead(fault: Fault, first: bool, b: Byte)
    ensures var frame := WordFrame(Answer(fault, F.FrameBits(first, b)), first);
            (frame == None && fault != Clean) || frame == Some(F.DataBits(b))
  {
    PlainFrameRead(first, b);
    if fault.Flipped? && |fault.flips| == |F.FrameBits(first, b)| && F.Odd(fault.flips) {
      FlippedRead(first, b, fault.flips);
    }
  }

  /** A frame is taken by reading the byte at `address` and sending it. */
  predicate SendsAt(m: Machine, phase: Phase, dev: Device, sent: Sent, first: bool, address: Address, left: nat) {
    var (b, e) := m.read(dev, address);
    Take(m, phase, dev, sent) == (Reading(At(address + 1), left, b), e, F.FrameBits(first, b))
  }

  lemma FrameExchanged(m: Machine, t: Target, sent: Sent, first: bool, address: Address, left: nat)
    requires t.Conforming?
    requires SendsAt(m, t.phase, t.dev, sent, first, address, left)
    ensures SendsByte(m, t, sent, first, address, left)
  {
    Exchanged(m, t, sent);
    AnswerRead(if t.faults == [] then Clean else t.faults[0], first, m.read(t.dev, address).0);
  }

  lemma LastAddressByte(m: Machine, phase: Phase, dev: Device, first: bool, got: seq<Byte>, v: Byte,
      address: Address, left: nat)
    requires phase == Head(true, got) && |got| == 3 && got[0] > 0 && first
    requires address == HeadAddress(got, v) && left == got[0] - 1
    ensures var (b, e) := m.read(dev, address);
            TakeByte(m, phase, dev, v) == (Reading(At(address + 1), left, b), e, F.FrameBits(first, b))
  {
  }

  /** The last address byte of a read makes the target send its first byte. */
  lemma {:induction false} LastAddressTaken(m: Machine, phase: Phase, dev: Device, first: bool, got: seq<Byte>, v: Byte,
      sent: Sent, address: Address, left: nat)
    requires phase == Head(true, got) && |got| == 3 && got[0] > 0 && first && sent == ByteFrame(v)
    requires address == HeadAddress(got, v) && left == got[0] - 1
    ensures SendsAt(m, phase, dev, sent, first, address, left)
  {
    LastAddressByte(m, phase, dev, first, got, v, address, left);
    ByteTaken(m, phase, dev, v);
  }

  lemma FirstByteExchanged(m: Machine, t: Target, first: bool, got: seq<Byte>, v: Byte,
      sent: Sent, address: Address, left: nat)
    requires t.Conforming? && t.phase == Head(true, got) && |got| == 3 && got[0] > 0 && first
    requires address == HeadAddress(got, v) && left == got[0] - 1 && sent == ByteFrame(v)
    ensures SendsByte(m, t, sent, first, address, left)
  {
    LastAddressTaken(m, t.phase, t.dev, first, got, v, sent, address, left);
    FrameExchanged(m, t, sent, first, address, left);
  }

  lemma NextByteExchanged(m: Machine, t: Target)
    requires t.Conforming? && t.phase.Reading? && t.phase.left > 0
    ensures SendsByte(m, t, Ack(true), false, t.phase.address, t.phase.left - 1)
  {
    FrameExchanged(m, t, Ack(true), false, t.phase.address, t.phase.left - 1);
  }

  /** A byte was received, and then it is the byte at `address`; or it was not, and the
      target may or may not have read it. */
  predicate Received(m: Machine, t: Target, u: Target, address: Address, left: nat, st: Status, data: Byte)
    requires t.Conforming?
  {
    && u.Conforming?
    && var (b, e) := m.read(t.dev, address);
       && (u.dev == t.dev || u.dev == e)
       && (st == Ok ==> data == b && u.phase == Reading(At(address + 1), left, b) && u.dev == e)
  }

  lemma ByteDecoded(m: Machine, t: Target, u: Target, address: Address, left: nat,
      frame: Option<seq<bool>>)
    requires t.Conforming? && GotByte(m, t, u, address, left, frame)
    ensures frame.Some? ==> |frame.value| == 10 && F.LinkByte(frame.value) == Some(m.read(t.dev, address).0)
  {
    F.IntactRead(true, m.read(t.dev, address).0);
  }

  /** An exchange by which the target reads the byte at `address` and sends it. */
  predicate SendsByte(m: Machine, t: Target, sent: Sent, first: bool, address: Address, left: nat)
    requires t.Conforming?
  {
    var (u, reply) := Exchange(m, t, sent);
    GotByte(m, t, u, address, left, WordFrame(reply, first))
  }

  // ----- the address bytes -----

  function ByteE(address: nat): Byte { address / 0x1_0000 % 256 }
  function ByteH(address: nat): Byte { address / 0x100 % 256 }
  function ByteL(address: nat): Byte { address % 256 }

  /** The target puts the low 24 bits of the address together again. */
  lemma {:induction false} AddressSent(count: Byte, address: nat)
    ensures HeadAddress([count, ByteE(address), ByteH(address)], ByteL(address)) == At(address)
  {
    AtIsLow(address);
    AddressSplit(address / 0x1_0000 / 0x100, ByteE(address), ByteH(address), ByteL(address), address);
  }

  lemma AddressSplit(z: nat, e: nat, h: nat, l: nat, address: nat)
    requires z == address / 0x1_0000 / 0x100 && e == address / 0x1_0000 % 0x100
    requires h == address / 0x100 % 0x100 && l == address % 0x100
    ensures address % SPACE == e * 0x1_0000 + h * 0x100 + l
  {
    var x := address / 0x100;
    assert address / 0x1_0000 == x / 0x100;
    assert address == z * SPACE + (e * 0x1_0000 + h * 0x100 + l);
  }

  lemma NextOf(address: nat, i: nat)
    ensures At(At(address + i) + 1) == At(address + i + 1)
  {
    AtIsLow(address + i);
    AtSum(At(address + i), address + i, 1);
  }

  /** A target that has taken the first `i` bytes of a write. */
  predicate Wrote(m: Machine, t: Target, d: Device, address: nat, data: seq<Byte>, i: nat)
    requires i <= |data|
  {
    && t.Conforming?
    && t.phase == (if i == |data| then Idle else Writing(At(address + i), |data| - i))
    && t.dev == WriteAll(m, d, address, data[..i])
  }

  /** One more data byte: taken if the link says so, and maybe even if it does not. */
  lemma {:induction false} ByteWritten(m: Machine, t: Target, u: Target, d: Device, address: nat, data: seq<Byte>,
      i: nat, st: Status)
    requires i < |data| && Wrote(m, t, d, address, data, i) && Sent8(m, t, u, data[i], st)
    ensures u.Conforming?
    ensures u.dev == WriteAll(m, d, address, data[..i]) || u.dev == WriteAll(m, d, address, data[..i + 1])
    ensures st == Ok ==> Wrote(m, u, d, address, data, i + 1)
  {
    NextOf(address, i);
    assert data[..i + 1] == data[..i] + [data[i]];
    WriteNext(m, d, address, data[..i], data[i]);
  }

  /** A target that has sent the first `i` bytes of a read, and the host has them. */
  predicate ReadSoFar(m: Machine, t: Target, d: Device, address: nat, len: nat, i: nat, data: seq<Byte>)
    requires i <= len
  {
    && t.Conforming?
    && t.phase.Reading? && t.phase.address == At(address + i) && t.phase.left == len - i
    && (data, t.dev) == ReadAll(m, d, address, i)
  }

  lemma ByteRead(m: Machine, t: Target, u: Target, d: Device, address: nat, len: nat, i: nat,
      data: seq<Byte>, st: Status, b: Byte)
    requires i < len && t.Conforming? && (data, t.dev) == ReadAll(m, d, address, i)
    requires Received(m, t, u, At(address + i), len - i - 1, st, b)
    ensures u.Conforming?
    ensures u.dev == ReadAll(m, d, address, i).1 || u.dev == ReadAll(m, d, address, i + 1).1
    ensures st == Ok ==> ReadSoFar(m, u, d, address, len, i + 1, data + [b])
  {
    NextOf(address, i);
    ReadNext(m, d, address, i);
  }

  /** How many bytes the target has read, after an exchange that began with `i` of them. */
  ghost function Seen(m: Machine, u: Target, origin: Target, address: nat, i: nat, st: Status): nat {
    if st == Ok then i + 1
    else if u.Conforming? && origin.Conforming? && u.dev != ReadAll(m, origin.dev, address, i).1 then i + 1
    else i
  }

  lemma ByteCounted(m: Machine, t: Target, u: Target, origin: Target, address: nat, len: nat, i: nat,
      next: Address, left: nat, data: seq<Byte>, st: Status, b: Byte)
    requires i + left + 1 == len && next == At(address + i)
    requires origin.Conforming? && t.Conforming? && (data, t.dev) == ReadAll(m, origin.dev, address, i)
    requires Received(m, t, u, next, left, st, b)
    ensures u.Conforming? && u.dev == ReadAll(m, origin.dev, address, Seen(m, u, origin, address, i, st)).1
    ensures st == Ok ==> ReadSoFar(m, u, origin.dev, address, len, i + 1, data + [b])
  {
    ByteRead(m, t, u, origin.dev, address, len, i, data, st, b);
  }

  // ----- chunks -----

  /** Where the last chunk of `n` > 0 bytes begins. */
  function LastChunk(n: nat): (c: nat)
    requires n > 0
    ensures c < n <= c + CHUNK && c % CHUNK == 0
  {
    (n - 1) / CHUNK * CHUNK
  }

  /** Where the chunk from `done` on ends, of `n` bytes in all. */
  function ChunkEnd(done: nat, n: nat): (end: nat)
    requires done <= n
    ensures done <= end <= n && end <= done + CHUNK && (done < n ==> done < end)
    ensures done % CHUNK == 0 ==> Boundary(end, n)
  {
    if n - done > CHUNK then done + CHUNK else n
  }

  /** Between chunks. */
  predicate Boundary(done: nat, n: nat) {
    done <= n && (done % CHUNK == 0 || done == n)
  }

  /** A single read transaction. */
  predicate ReadOnce(log: Log, before: Log, address: nat, len: nat, st: Status, data: seq<Byte>) {
    log == Then(before, Event.Read(address, len, st, data))
  }

  /** The events of a chunked write that succeeds, and of a chunked read that returns
      `data`: one transaction for each 64 bytes, in address order. */
  function WriteLog(log: Log, address: nat, data: seq<Byte>): Log
    decreases |data|
  {
    if data == [] then log
    else
      var c := LastChunk(|data|);
      Then(WriteLog(log, address, data[..c]), Event.Write((address + c) % U32, data[c..], Ok, |data| - c))
  }

  function ReadLog(log: Log, address: nat, data: seq<Byte>): Log
    decreases |data|
  {
    if data == [] then log
    else
      var c := LastChunk(|data|);
      Then(ReadLog(log, address, data[..c]), Event.Read((address + c) % U32, |data| - c, Ok, data[c..]))
  }

  lemma LastChunkIs(c: nat, n: nat)
    requires c < n <= c + CHUNK && c % CHUNK == 0
    ensures LastChunk(n) == c
  {
  }

  /** At most one chunk is one transaction. */
  lemma {:induction false} OneChunk(log: Log, start: Log, address: nat, data: seq<Byte>, done: nat, taken: nat,
      st: Status)
    requires 0 < |data| <= CHUNK && address < U32
    requires if st == Ok then taken == |data| && log == WriteLog(start, address, data)
             else WriteStopped(log, start, address, data, done, taken, st)
    ensures log == Then(start, Event.Write(address, data, st, taken))
  {
    LastChunkIs(0, |data|);
    assert data[..0] == [] && data[0..] == data && data[0..|data|] == data;
  }

  /** A chunked write that failed: `done` bytes in whole transactions, and one more
      transaction that ended in `st` after the target had taken `taken` bytes in all. */
  predicate WriteStopped(log: Log, start: Log, address: nat, data: seq<Byte>, done: nat, taken: nat, st: Status) {
    && done < |data| && done % CHUNK == 0 && done <= taken <= ChunkEnd(done, |data|)
    && log == Then(WriteLog(start, address, data[..done]),
                   Event.Write((address + done) % U32, data[done..ChunkEnd(done, |data|)], st, taken - done))
  }

  lemma {:induction false} WriteLogNext(log: Log, address: nat, data: seq<Byte>, at: nat, end: nat)
    requires at < end <= |data| && end <= at + CHUNK && at % CHUNK == 0
    ensures WriteLog(log, address, data[..end])
         == Then(WriteLog(log, address, data[..at]), Event.Write((address + at) % U32, data[at..end], Ok, end - at))
  {
    LastChunkIs(at, end);
    assert data[..end][..at] == data[..at] && data[..end][at..] == data[at..end];
  }

  lemma ReadLogNext(log: Log, address: nat, data: seq<Byte>, more: seq<Byte>)
    requires 0 < |more| <= CHUNK && |data| % CHUNK == 0
    ensures ReadLog(log, address, data + more)
         == Then(ReadLog(log, address, data), Event.Read((address + |data|) % U32, |more|, Ok, more))
  {
    LastChunkIs(|data|, |data| + |more|);
    assert (data + more)[..|data|] == data && (data + more)[|data|..] == more;
  }

  lemma Wrapped(address: nat, done: nat)
    ensures At((address + done) % U32) == At(address + done)
  {
    AtIsLow((address + done) % U32);
    AtIsLow(address + done);
    var q := (address + done) / U32;
    assert address + done == q * U32 + (address + done) % U32;
    assert q * U32 == (q * 256) * SPACE;
    WholeTurns(q * 256, (address + done) % U32);
  }

  lemma {:induction false} WholeTurns(k: nat, x: nat)
    ensures (k * SPACE + x) % SPACE == x % SPACE
    decreases k
  {
    if k > 0 {
      WholeTurns(k - 1, x);
      assert k * SPACE + x == ((k - 1) * SPACE + x) + SPACE;
    }
  }

  /** The bytes of one more chunk come after those already written. */
  lemma {:induction false} ChunkWritten(m: Machine, d: Device, address: nat, data: seq<Byte>, done: nat, end: nat,
      taken: nat)
    requires done <= end <= |data| && taken <= end - done
    ensures WriteAll(m, WriteAll(m, d, address, data[..done]), (address + done) % U32, data[done..end][..taken])
         == WriteAll(m, d, address, data[..done + taken])
  {
    Wrapped(address, done);
    var x, y := data[..done], data[done..end][..taken];
    assert data[..done + taken] == x + y;
    WriteAppend(m, d, address, x, y);
    SameWrites(m, WriteAll(m, d, address, x), address + done, (address + done) % U32, y);
  }

  lemma ChunkRead(m: Machine, d: Device, address: nat, done: nat, n: nat)
    ensures var (s, e) := ReadAll(m, d, address, done);
            var (t, f) := ReadAll(m, e, (address + done) % U32, n);
            ReadAll(m, d, address, done + n) == (s + t, f)
  {
    Wrapped(address, done);
    ReadAppend(m, d, address, done, n);
    SameReads(m, ReadAll(m, d, address, done).1, address + done, (address + done) % U32, n);
  }

  /** The target, after the first `n` bytes of a write, or of a read that returned `data`. */
  predicate DmWrote(m: Machine, t: Target, origin: Target, address: nat, data: seq<Byte>, n: nat)
    requires n <= |data|
  {
    && t.Conforming? == origin.Conforming?
    && (t.Conforming? ==> t.dev == WriteAll(m, origin.dev, address, data[..n]))
  }

  predicate DmReadOn(m: Machine, t: Target, origin: Target, address: nat, n: nat) {
    && t.Conforming? == origin.Conforming?
    && (t.Conforming? ==> t.dev == ReadAll(m, origin.dev, address, n).1)
  }

  predicate DmGot(m: Machine, t: Target, origin: Target, address: nat, data: seq<Byte>) {
    && t.Conforming? == origin.Conforming?
    && (t.Conforming? ==> (data, t.dev) == ReadAll(m, origin.dev, address, |data|))
  }

  lemma ChunkTaken(m: Machine, t: Target, u: Target, origin: Target, address: nat,
      data: seq<Byte>, done: nat,
      chunk: seq<Byte>, n: nat, taken: nat)
    requires done + |chunk| <= |data| && chunk == data[done..done + |chunk|] && n <= |chunk| && taken == done + n
    requires DmWrote(m, t, origin, address, data, done) && u.Conforming? == t.Conforming?
    requires u.Conforming? ==> u.dev == WriteAll(m, t.dev, (address + done) % U32, chunk[..n])
    ensures DmWrote(m, u, origin, address, data, taken)
  {
    if u.Conforming? {
      ChunkWritten(m, origin.dev, address, data, done, done + |chunk|, n);
    }
  }

  lemma {:induction false} ReadOn(m: Machine, t: Target, u: Target, origin: Target, address: nat, data: seq<Byte>,
      at: nat, chunk: nat, n: nat, st: Status, more: seq<Byte>)
    requires DmGot(m, t, origin, address, data) && at == (address + |data|) % U32
    requires u.Conforming? == t.Conforming?
    requires u.Conforming? ==> u.dev == ReadAll(m, t.dev, at, n).1
    requires u.Conforming? && st == Ok ==> n == chunk && more == ReadAll(m, t.dev, at, chunk).0
    ensures DmReadOn(m, u, origin, address, |data| + n)
    ensures st == Ok ==> DmGot(m, u, origin, address, data + more)
  {
    if u.Conforming? {
      ChunkRead(m, origin.dev, address, |data|, n);
    }
  }

  // ----- what transfers do to plain memory -----

  /** A write and then a read of the same plain memory, in chunks: the data come back, and
      nothing else has changed. */
  lemma TransferRoundTrip(t: Target, u: Target, w: Target, address: nat, data: seq<Byte>,
      got: seq<Byte>)
    requires t.Conforming? && AllPlain(address, |data|) && |got| == |data|
    requires DmWrote(STM8, u, t, address, data, |data|) && DmGot(STM8, w, u, address, got)
    ensures got == data
    ensures w.dev == t.dev.(mem := w.dev.mem)
    ensures forall x :: 0 <= x < SPACE && !(address <= x < address + |data|) ==> w.dev.mem[x] == t.dev.mem[x]
  {
    assert data[..|data|] == data;
    WriteThenRead(t.dev, address, data);
  }

  /** However a write ends, it has left a prefix of the data and then the old bytes. */
  lemma TransferPrefix(t: Target, u: Target, address: nat, data: seq<Byte>, taken: nat)
    requires t.Conforming? && AllPlain(address, |data|) && taken <= |data|
    requires DmWrote(STM8, u, t, address, data, taken)
    ensures u.dev == t.dev.(mem := u.dev.mem)
    ensures u.dev.mem == t.dev.mem[..address] + data[..taken] + t.dev.mem[address + taken..]
  {
    PrefixWritten(t.dev, address, data, taken);
  }

  // ----- the SWIM pad -----

  /** Who drives the pad, a PIO block or the processor, and whether the output of either is
      enabled; an enabled output is low. */
  datatype Pad = Pad(byPio: bool, pio: bool, sio: bool)

  /** The host holds the line low. */
  predicate Held(p: Pad) {
    if p.byPio then p.pio else p.sio
  }

  /** The processor has the pad, as an input. */
  predicate Freed(p: Pad) {
    !p.byPio && !p.sio
  }

  /** No output is enabled that was not, and the line is not held unless the pad was left
      alone. */
  predicate Eased(p: Pad, before: Pad) {
    && (p.pio ==> before.pio) && (p.sio ==> before.sio)
    && (Held(p) ==> p == before)
  }

  /** What becomes of a synchronisation: its frame is measured; it is not, or is no usable
      one; or the waveform that asks for it is refused before the pad is touched. */
  datatype Sync = Measured | Missed | NotSent

  // ----- the link -----

  /**
  The link and the PHY state it depends on: whether a SWIM clock has been measured,
  whether the low speed is set, the reset pin, the SWIM pad, and the target behind the
  wire. `syncs` says what becomes of the synchronisations to come.
  */
  class SwimLink {
    const m: Machine
    var ready: bool
    var low: bool
    var nrst: bool
    var pad: Pad
    var target: Target
    var syncs: seq<Sync>
    ghost var log: Log

    constructor (m: Machine, target: Target, syncs: seq<Sync>)
      ensures this.m == m && this.target == target && this.syncs == syncs && !ready && low && !nrst && log == Start
      ensures Freed(pad) && !pad.pio
    {
      ready, low, nrst, pad := false, true, false, Pad(false, false, false);
      this.m, this.target, this.syncs, log := m, target, syncs, Start;
    }

    /** swim_phy_release */
    method Release()
      modifies `pad
      ensures Freed(pad) && Eased(pad, old(pad))
    {
      pad := pad.(byPio := false, sio := false);
    }

    /** swim_phy_sio_input */
    method SioInput()
      modifies `pad
      ensures pad == old(pad).(byPio := false, sio := false)
    {
      pad := pad.(byPio := false, sio := false);
    }

    /** swim_phy_sio_drive_low_fast, and the time the line is low. */
    method SioDriveLow()
      modifies `pad
      ensures pad == old(pad).(sio := true)
    {
      pad := pad.(sio := true);
    }

    /** swim_phy_sio_release_fast */
    method SioRelease()
      modifies `pad
      ensures pad == old(pad).(sio := false)
    {
      pad := pad.(sio := false);
    }

    /** The TX program takes the pad and plays its segments; the wait for the answer can end
        before they do, so it is left holding the line. */
    method PioPlay()
      modifies `pad
      ensures pad == old(pad).(byPio := true, pio := true)
    {
      pad := pad.(byPio := true, pio := true);
    }

    /** pio_release_swim_pin */
    method PioRelease()
      modifies `pad
      ensures pad == old(pad).(pio := false)
    {
      pad := pad.(pio := false);
    }

    /** A frame or a bit played by PIO, and what comes back. */
    method Transfer(sent: Sent) returns (reply: Reply)
      modifies `target, `pad
      ensures (target, reply) == Exchange(m, old(target), sent)
      ensures target.Conforming? == old(target).Conforming?
      ensures Freed(pad) && Eased(pad, old(pad))
    {
      PioPlay();
      var (t, r) := Exchange(m, target, sent);
      target := t;
      reply := r;
      PioRelease();
      SioInput();
    }

    /** swim_phy_write_bit: the bit that answers a target frame, driven by the processor. */
    method WriteBit(ack: bool) returns (ok: bool)
      modifies `target, `pad
      ensures ok == ready
      ensures target == if ready then Exchange(m, old(target), Ack(ack)).0 else old(target)
      ensures target.Conforming? == old(target).Conforming?
      ensures Eased(pad, old(pad)) && (ok ==> Freed(pad))
    {
      if !ready {
        return false;
      }
      SioInput();
      SioDriveLow();
      target := Exchange(m, target, Ack(ack)).0;
      SioRelease();
      return true;
    }

    /** swim_phy_reset_timing */
    method ResetTiming()
      modifies `ready
      ensures !ready
    {
      ready := false;
    }

    /** swim_phy_set_speed: the high speed needs a measured clock. */
    method SetSpeed(high: bool) returns (ok: bool)
      modifies `low
      ensures ok == (!high || ready) && low == if ok then !high else old(low)
    {
      ok := !high || ready;
      if ok {
        low := !high;
      }
    }

    method SetNrst(asserted: bool)
      modifies `nrst, `log
      ensures nrst == asserted && log == Then(old(log), Nrst(asserted, Held(pad)))
    {
      nrst := asserted;
      log := Then(log, Nrst(asserted, Held(pad)));
    }

    /** The next synchronisation; if its frame is measured the clock is known, at low speed,
        and the target is at the start of a transaction. */
    method WaitSync() returns (sync: Sync)
      modifies `ready, `low, `syncs, `target
      ensures sync.Measured? ==> ready && low
      ensures !sync.Measured? ==> ready == old(ready) && low == old(low)
      ensures target == if sync.Measured? then Reset(old(target)) else old(target)
      ensures old(syncs) == [] ==> sync.Measured? && syncs == []
    {
      sync := if syncs == [] then Measured else syncs[0];
      syncs := if syncs == [] then [] else syncs[1..];
      if sync.Measured? {
        ready, low, target := true, true, Reset(target);
      }
    }

    /** A waveform played by PIO, and the wait for the synchronisation frame after it. */
    method PlayAndWaitSync() returns (ok: bool)
      modifies `ready, `low, `syncs, `target, `pad
      ensures ok ==> ready && low
      ensures !ok ==> ready == old(ready) && low == old(low)
      ensures target == if ok then Reset(old(target)) else old(target)
      ensures old(syncs) == [] ==> ok && syncs == []
      ensures Eased(pad, old(pad)) && (ok ==> !Held(pad))
    {
      var sync := WaitSync();
      if !sync.NotSent? {
        PioPlay();
        PioRelease();
      }
      return sync.Measured?;
    }

    /** swim_phy_entry_sequence_um0470_wait_sync */
    method EntryWaitSync() returns (ok: bool)
      modifies `ready, `low, `syncs, `target, `pad, `log
      ensures log == Then(old(log), EntrySync(ok))
      ensures ok ==> ready && low
      ensures !ok ==> ready == old(ready) && low == old(low)
      ensures target == if ok then Reset(old(target)) else old(target)
      ensures old(syncs) == [] ==> ok && syncs == []
      ensures Eased(pad, old(pad)) && (ok ==> !Held(pad))
    {
      ok := PlayAndWaitSync();
      log := Then(log, EntrySync(ok));
    }

    /** swim_phy_comm_reset_wait_sync: without a measured clock the processor pulses the line
        low and then polls it. */
    method CommResetWaitSync() returns (ok: bool)
      modifies `ready, `low, `syncs, `target, `pad, `log
      ensures log == Then(old(log), CommReset(ok))
      ensures ok ==> ready && low
      ensures !ok ==> ready == old(ready) && low == old(low)
      ensures target == if ok then Reset(old(target)) else old(target)
      ensures old(syncs) == [] ==> ok && syncs == []
      ensures Eased(pad, old(pad)) && (ok ==> !Held(pad))
    {
      if ready {
        ok := PlayAndWaitSync();
      } else {
        SioInput();
        SioDriveLow();
        Release();
        var sync := WaitSync();
        ok := sync.Measured?;
      }
      log := Then(log, CommReset(ok));
    }

    /** send_command */
    method SendCommand(command: nat) returns (st: Status)
      requires command == CMD_ROTF || command == CMD_WOTF
      modifies `target, `pad
      ensures CommandSent(old(target), target, command, st)
      ensures ready && Clear(old(target)) ==> st == Ok && Clear(target)
      ensures ready && old(target).Conforming? ==> st == ToldStatus(old(target))
      ensures Answered(st)
      ensures target.Conforming? == old(target).Conforming?
      ensures !ready ==> st == Timeout && target == old(target)
      ensures Eased(pad, old(pad)) && (st == Ok ==> Freed(pad))
    {
      if !ready {
        return Timeout;
      }
      if target.Conforming? {
        CommandExchanged(m, target, command);
      }
      var reply := Transfer(CommandFrame(command));
      return AckStatus(reply);
    }

    /** send_byte_labeled */
    method SendByte(byte: Byte) returns (st: Status)
      modifies `target, `pad
      ensures Sent8(m, old(target), target, byte, st)
      ensures ready && Clear(old(target)) && TakeByte(m, old(target).phase, old(target).dev, byte).2 == [true]
          ==> st == Ok && Clear(target)
      ensures ready && old(target).Conforming? && TakeByte(m, old(target).phase, old(target).dev, byte).2 == [true]
          ==> st == ToldStatus(old(target))
      ensures Answered(st)
      ensures target.Conforming? == old(target).Conforming?
      ensures !ready ==> st == Timeout && target == old(target)
      ensures Eased(pad, old(pad)) && (st == Ok ==> Freed(pad))
    {
      if !ready {
        return Timeout;
      }
      if target.Conforming? {
        ByteExchanged(m, target, byte);
      }
      var reply := Transfer(ByteFrame(byte));
      return AckStatus(reply);
    }

    /** The command, the count and the two high address bytes. */
    method SendHead(command: nat, count: Byte, address: nat) returns (st: Status)
      requires command == CMD_ROTF || command == CMD_WOTF
      modifies `target, `pad
      ensures Answered(st)
      ensures target.Conforming? == old(target).Conforming?
      ensures target.Conforming? ==> target.dev == old(target).dev
      ensures target.Conforming? && st == Ok
          ==> target.phase == Head(command == CMD_ROTF, [count, ByteE(address), ByteH(address)])
      ensures ready && Clear(old(target)) ==> st == Ok && Clear(target)
      ensures !ready ==> st == Timeout && target == old(target)
      ensures Eased(pad, old(pad)) && (st == Ok ==> Freed(pad))
    {
      st := SendCommand(command);
      if st != Ok {
        return;
      }
      st := SendByte(count);
      if st != Ok {
        return;
      }
      st := SendByte(ByteE(address));
      if st != Ok {
        return;
      }
      st := SendByte(ByteH(address));
    }

    /** The last address byte of a write: the target waits for the data. */
    method SendLow(address: nat, data: seq<Byte>) returns (st: Status)
      requires 0 < |data| <= 255
      requires target.Conforming? ==> target.phase == Head(false, [|data|, ByteE(address), ByteH(address)])
      modifies `target, `pad
      ensures Answered(st)
      ensures target.Conforming? == old(target).Conforming?
      ensures target.Conforming? ==> target.dev == old(target).dev
      ensures target.Conforming? && st == Ok ==> Wrote(m, target, old(target).dev, address, data, 0)
      ensures ready && Clear(old(target)) ==> st == Ok && Clear(target)
      ensures Eased(pad, old(pad)) && (st == Ok ==> Freed(pad))
    {
      AddressSent(|data|, address);
      st := SendByte(ByteL(address));
      assert data[..0] == [];
    }

    /** One data byte; `taken` are those that the target has then. */
    method SendNext(address: nat, data: seq<Byte>, i: nat, ghost origin: Target) returns (st: Status, ghost taken: nat)
      requires i < |data|
      requires target.Conforming? ==> origin.Conforming? && Wrote(m, target, origin.dev, address, data, i)
      modifies `target, `pad
      ensures Answered(st) && i <= taken <= i + 1 && (st == Ok ==> taken == i + 1)
      ensures target.Conforming? == old(target).Conforming?
      ensures target.Conforming? ==> target.dev == WriteAll(m, origin.dev, address, data[..taken])
      ensures target.Conforming? && st == Ok ==> Wrote(m, target, origin.dev, address, data, i + 1)
      ensures ready && Clear(old(target)) ==> st == Ok && Clear(target)
      ensures Eased(pad, old(pad)) && (st == Ok ==> Freed(pad))
    {
      ghost var before := target;
      st := SendByte(data[i]);
      if before.Conforming? {
        ByteWritten(m, before, target, origin.dev, address, data, i, st);
      }
      ghost var same := target.Conforming? ==> target.dev == WriteAll(m, origin.dev, address, data[..i]);
      taken := if st != Ok && same then i else i + 1;
    }

    /** swim_link_write */
    method Write(address: nat, data: seq<Byte>) returns (st: Status, ghost taken: nat)
      modifies `target, `pad, `log
      ensures taken <= |data| && (st == Ok ==> taken == |data|)
      ensures data == [] || |data| > 255 ==> st == BadArgument && target == old(target) && log == old(log)
      ensures data != [] && |data| <= 255 ==> Answered(st)
      ensures data != [] && |data| <= 255 ==> log == Then(old(log), Event.Write(address, data, st, taken))
      ensures target.Conforming? == old(target).Conforming?
      ensures target.Conforming? ==>
                target.dev == WriteAll(m, old(target).dev, address, data[..taken])
      ensures data != [] && |data| <= 255 && ready && Clear(old(target)) ==> st == Ok && Clear(target)
      ensures target.Conforming? && st == Ok ==> target.phase == Idle
      ensures Eased(pad, old(pad)) && (st == Ok ==> Freed(pad))
    {
      taken := 0;
      assert data[..0] == [];
      if data == [] || |data| > 255 {
        return BadArgument, 0;
      }
      st := SendHead(SWIM_CMD_WOTF, |data|, address);
      if st == Ok {
        st := SendLow(address, data);
        var i := 0;
        while i < |data| && st == Ok
          invariant Answered(st) && i <= |data| && taken <= |data| && log == old(log) && (st == Ok ==> taken == i)
          invariant Eased(pad, old(pad)) && (st == Ok ==> Freed(pad))
          invariant target.Conforming? == old(target).Conforming?
          invariant ready && Clear(old(target)) ==> st == Ok && Clear(target)
          invariant target.Conforming? ==> target.dev == WriteAll(m, old(target).dev, address, data[..taken])
          invariant target.Conforming? && st == Ok ==> Wrote(m, target, old(target).dev, address, data, i)
        {
          st, taken := SendNext(address, data, i, old(target));
          i := i + 1;
        }
      }
      log := Then(log, Event.Write(address, data, st, taken));
    }

    /** decode_data_frame_no_ack on what the PHY returned; a frame the link itself refuses
        is answered with NACK. */
    method DecodeFrame(frame: Option<seq<bool>>) returns (st: Status, byte: Byte)
      requires frame.Some? ==> |frame.value| == 10
      modifies `target, `pad
      ensures target.Conforming? == old(target).Conforming?
      ensures frame == None ==> st == Timeout && target == old(target)
      ensures frame.Some? && F.LinkByte(frame.value).Some?
          ==> st == Ok && target == old(target) && byte == F.LinkByte(frame.value).value
      ensures frame.Some? && F.LinkByte(frame.value).None?
          ==> st == TargetError && target == if ready then Exchange(m, old(target), Ack(false)).0 else old(target)
      ensures Eased(pad, old(pad))
    {
      if frame == None {
        return Timeout, 0;
      }
      var got := F.LinkByte(frame.value);
      if got.Some? {
        return Ok, got.value;
      }
      var _ := WriteBit(false);
      return TargetError, 0;
    }

    /** An exchange that must return a data frame. */
    method ReceiveByte(sent: Sent, first: bool, ghost address: Address, ghost left: nat) returns (st: Status, byte: Byte)
      requires target.Conforming? ==> SendsByte(m, target, sent, first, address, left)
      modifies `target, `pad
      ensures target.Conforming? == old(target).Conforming?
      ensures target.Conforming? ==> Received(m, old(target), target, address, left, st, byte)
      ensures Clear(old(target)) ==> st == Ok && Clear(target)
      ensures Eased(pad, old(pad))
    {
      ghost var before := target;
      var reply := Transfer(sent);
      var frame := WordFrame(reply, first);
      ghost var after := target;
      st, byte := DecodeFrame(frame);
      if before.Conforming? {
        ByteDecoded(m, before, after, address, left, frame);
      }
    }

    /** send_byte_read_ack_frame_labeled */
    method SendLastAddress(byte: Byte, ghost got: seq<Byte>, ghost address: Address, ghost left: nat)
      returns (st: Status, data: Byte)
      requires target.Conforming? ==>
                 && target.phase == Head(true, got) && |got| == 3 && got[0] > 0
                 && address == HeadAddress(got, byte) && left == got[0] - 1
      modifies `target, `pad
      ensures target.Conforming? == old(target).Conforming?
      ensures target.Conforming? ==> Received(m, old(target), target, address, left, st, data)
      ensures ready && low && Clear(old(target)) ==> st == Ok && Clear(target)
      ensures Eased(pad, old(pad))
    {
      if !ready || !low {
        return Timeout, 0;
      }
      var first := true;
      var sent := ByteFrame(byte);
      if target.Conforming? {
        FirstByteExchanged(m, target, first, got, byte, sent, address, left);
      }
      st, data := ReceiveByte(sent, first, address, left);
    }

    /** recv_byte_after_ack */
    method RecvByteAfterAck(ghost address: Address, ghost left: nat) returns (st: Status, data: Byte)
      requires target.Conforming? ==> target.phase.Reading? && target.phase.address == address && target.phase.left == left + 1
      modifies `target, `pad
      ensures target.Conforming? == old(target).Conforming?
      ensures target.Conforming? ==> Received(m, old(target), target, address, left, st, data)
      ensures ready && low && Clear(old(target)) ==> st == Ok && Clear(target)
      ensures Eased(pad, old(pad))
    {
      if !ready || !low {
        return Timeout, 0;
      }
      if target.Conforming? {
        NextByteExchanged(m, target);
      }
      st, data := ReceiveByte(Ack(true), false, address, left);
    }

    /** send_target_frame_ack(true) after the last byte: the target goes idle. */
    method AckLast(ghost origin: Target, ghost address: nat, ghost len: nat, ghost data: seq<Byte>) returns (st: Status)
      requires target.Conforming? ==> origin.Conforming? && ReadSoFar(m, target, origin.dev, address, len, len, data)
      modifies `target, `pad
      ensures Answered(st)
      ensures target.Conforming? == old(target).Conforming?
      ensures target.Conforming? ==> target.dev == old(target).dev
      ensures ready && Clear(old(target)) ==> st == Ok && Clear(target) && target.phase == Idle
      ensures Eased(pad, old(pad)) && (st == Ok ==> Freed(pad))
    {
      var ok := WriteBit(true);
      return if ok then Ok else Timeout;
    }

    /** The last address byte, and the first data byte the target sends for it. */
    method RecvFirst(address: nat, len: Byte) returns (st: Status, data: seq<Byte>, ghost taken: nat)
      requires len > 0
      requires target.Conforming? ==> target.phase == Head(true, [len, ByteE(address), ByteH(address)])
      modifies `target, `pad
      ensures target.Conforming? == old(target).Conforming? && taken <= 1
      ensures if st == Ok then |data| == taken == 1 else data == []
      ensures target.Conforming? ==> target.dev == ReadAll(m, old(target).dev, address, taken).1
      ensures target.Conforming? && st == Ok ==> ReadSoFar(m, target, old(target).dev, address, len, 1, data)
      ensures ready && low && Clear(old(target)) ==> st == Ok && Clear(target)
      ensures Eased(pad, old(pad))
    {
      AddressSent(len, address);
      ghost var before := target;
      var b;
      st, b := SendLastAddress(ByteL(address), [len, ByteE(address), ByteH(address)], At(address), len - 1);
      if before.Conforming? {
        ByteCounted(m, before, target, before, address, len, 0, At(address), len - 1, [], st, b);
      }
      taken := Seen(m, target, before, address, 0, st);
      data := if st == Ok then [b] else [];
      assert st == Ok ==> data == [] + [b];
    }

    /** One more data byte. */
    method RecvNext(address: nat, len: nat, data: seq<Byte>, ghost origin: Target)
      returns (st: Status, more: seq<Byte>, ghost taken: nat)
      requires |data| < len
      requires target.Conforming? ==> origin.Conforming? && ReadSoFar(m, target, origin.dev, address, len, |data|, data)
      modifies `target, `pad
      ensures target.Conforming? == old(target).Conforming? && taken <= |data| + 1
      ensures if st == Ok then |more| == taken == |data| + 1 else more == data
      ensures target.Conforming? ==> target.dev == ReadAll(m, origin.dev, address, taken).1
      ensures target.Conforming? && st == Ok ==> ReadSoFar(m, target, origin.dev, address, len, |more|, more)
      ensures ready && low && Clear(old(target)) ==> st == Ok && Clear(target)
      ensures Eased(pad, old(pad))
    {
      ghost var before := target;
      ghost var next: Address, left: nat := At(address + |data|), len - |data| - 1;
      var b;
      st, b := RecvByteAfterAck(next, left);
      if before.Conforming? {
        ByteCounted(m, before, target, origin, address, len, |data|, next, left, data, st, b);
      }
      taken := Seen(m, target, origin, address, |data|, st);
      more := if st == Ok then data + [b] else data;
    }

    /** swim_link_read */
    method Read(address: nat, len: nat) returns (st: Status, data: seq<Byte>, ghost taken: nat)
      modifies `target, `pad, `log
      ensures taken <= len && (st == Ok ==> taken == len)
      ensures len == 0 || len > 255 ==> st == BadArgument && target == old(target) && log == old(log)
      ensures 0 < len <= 255 ==> log == Then(old(log), Event.Read(address, len, st, data))
      ensures st == Ok ==> |data| == len
      ensures target.Conforming? == old(target).Conforming?
      ensures target.Conforming? ==>
                && target.dev == ReadAll(m, old(target).dev, address, taken).1
                && (st == Ok ==> data == ReadAll(m, old(target).dev, address, len).0)
      ensures 0 < len <= 255 && ready && low && Clear(old(target)) ==> st == Ok && Clear(target) && target.phase == Idle
      ensures Eased(pad, old(pad)) && (st == Ok ==> Freed(pad))
    {
      data, taken := [], 0;
      if len == 0 || len > 255 {
        return BadArgument, [], 0;
      }
      st := SendHead(SWIM_CMD_ROTF, len, address);
      if st == Ok {
        st, data, taken := RecvFirst(address, len);
        while |data| < len && st == Ok
          invariant |data| <= len && log == old(log) && taken <= len && Eased(pad, old(pad))
          invariant target.Conforming? == old(target).Conforming?
          invariant st == Ok ==> |data| == taken && |data| >= 1
          invariant target.Conforming? ==> target.dev == ReadAll(m, old(target).dev, address, taken).1
          invariant ready && low && Clear(old(target)) ==> st == Ok && Clear(target)
          invariant target.Conforming? && st == Ok ==> ReadSoFar(m, target, old(target).dev, address, len, |data|, data)
          decreases len - |data|, st == Ok
        {
          st, data, taken := RecvNext(address, len, data, old(target));
        }
        if st == Ok {
          st := AckLast(old(target), address, len, data);
        }
      }
      log := Then(log, Event.Read(address, len, st, data));
    }

    /** One transaction of a chunked write. */
    method WriteChunk(address: nat, data: seq<Byte>, at: nat, ghost start: Log, ghost origin: Target)
      returns (st: Status, ghost taken: nat)
      requires address < U32 && at < |data| && at % CHUNK == 0
      requires log == WriteLog(start, address, data[..at]) && DmWrote(m, target, origin, address, data, at)
      modifies `target, `pad, `log
      ensures Answered(st) && at <= taken <= ChunkEnd(at, |data|)
      ensures st == Ok ==> taken == ChunkEnd(at, |data|) && log == WriteLog(start, address, data[..taken])
      ensures st != Ok ==> WriteStopped(log, start, address, data, at, taken, st)
      ensures DmWrote(m, target, origin, address, data, taken)
      ensures ready && Clear(old(target)) ==> st == Ok && Clear(target)
      ensures target.Conforming? && st == Ok ==> target.phase == Idle
    {
      var end := ChunkEnd(at, |data|);
      ghost var before, n := target, 0;
      st, n := Write((address + at) % U32, data[at..end]);
      taken := at + n;
      ChunkTaken(m, before, target, origin, address, data, at, data[at..end], n, taken);
      if st == Ok {
        WriteLogNext(start, address, data, at, end);
      }
    }

    /** stm8_dm_memory_write: after `taken` bytes, or all of them. */
    method DmWrite(address: nat, data: seq<Byte>) returns (st: Status, ghost taken: nat, ghost done: nat)
      requires address < U32
      modifies `target, `pad, `log
      ensures Answered(st) && done <= taken <= |data|
      ensures st == Ok ==> taken == |data| && log == WriteLog(old(log), address, data)
      ensures st != Ok ==> WriteStopped(log, old(log), address, data, done, taken, st)
      ensures DmWrote(m, target, old(target), address, data, taken)
      ensures ready && Clear(old(target)) ==> st == Ok && Clear(target)
      ensures target.Conforming? && st == Ok && data != [] ==> target.phase == Idle
    {
      done, taken, st := 0, 0, Ok;
      var at := 0;
      assert data[..0] == [];
      while at < |data|
        invariant Boundary(at, |data|) && taken == done == at && st == Ok
        invariant log == WriteLog(old(log), address, data[..at])
        invariant ready && Clear(old(target)) ==> Clear(target)
        invariant DmWrote(m, target, old(target), address, data, at)
        invariant target.Conforming? && at > 0 ==> target.phase == Idle
      {
        st, taken := WriteChunk(address, data, at, old(log), old(target));
        if st != Ok {
          return;
        }
        at := ChunkEnd(at, |data|);
        done := at;
      }
      assert data[..|data|] == data;
    }

    /** One transaction of a chunked read. */
    method ReadChunk(address: nat, data: seq<Byte>, len: nat, ghost start: Log, ghost origin: Target)
      returns (st: Status, longer: seq<Byte>, ghost taken: nat)
      requires address < U32 && |data| < len && |data| % CHUNK == 0
      requires log == ReadLog(start, address, data) && DmGot(m, target, origin, address, data)
      modifies `target, `pad, `log
      ensures |data| <= taken <= ChunkEnd(|data|, len)
      ensures st == Ok ==> |longer| == taken == ChunkEnd(|data|, len) && log == ReadLog(start, address, longer)
      ensures data == [] ==> ReadOnce(log, old(log), address, ChunkEnd(0, len), st, longer)
      ensures DmReadOn(m, target, origin, address, taken)
      ensures st == Ok ==> DmGot(m, target, origin, address, longer)
      ensures ready && low && Clear(old(target)) ==> st == Ok && Clear(target) && target.phase == Idle
    {
      var at, chunk := (address + |data|) % U32, ChunkEnd(|data|, len) - |data|;
      ghost var before, n := target, 0;
      var more;
      st, more, n := Read(at, chunk);
      taken, longer := |data| + n, data + more;
      ReadOn(m, before, target, origin, address, data, at, chunk, n, st, more);
      if st == Ok {
        ReadLogNext(start, address, data, more);
      }
      assert [] + more == more;
    }

    /** stm8_dm_memory_read */
    method DmRead(address: nat, len: nat) returns (st: Status, data: seq<Byte>, ghost taken: nat)
      requires address < U32
      modifies `target, `pad, `log
      ensures taken <= len
      ensures st == Ok ==> |data| == len && log == ReadLog(old(log), address, data)
      ensures 0 < len <= CHUNK ==> ReadOnce(log, old(log), address, len, st, data)
      ensures DmReadOn(m, target, old(target), address, taken)
      ensures st == Ok ==> DmGot(m, target, old(target), address, data)
      ensures ready && low && Clear(old(target)) ==> st == Ok && Clear(target) && (len > 0 ==> target.phase == Idle)
    {
      data, taken, st := [], 0, Ok;
      while |data| < len
        invariant Boundary(|data|, len) && taken == |data| && st == Ok
        invariant log == ReadLog(old(log), address, data)
        invariant ready && low && Clear(old(target)) ==> Clear(target) && (data != [] ==> target.phase == Idle)
        invariant DmGot(m, target, old(target), address, data)
        invariant data != [] && len <= CHUNK ==> ReadOnce(log, old(log), address, len, st, data)
        decreases len - |data|
      {
        st, data, taken := ReadChunk(address, data, len, old(log), old(target));
        if st != Ok {
          return;
        }
      }
    }
  }
}
