/**
The host's side: commands over the serial line, and chunked memory accesses.
*/
module Visits {
  import opened BitVectors
  import opened Link
  import opened FlashLog

  function Range(a: nat, n: nat): (r: seq<nat>)
    ensures |r| == n
  {
    seq(n, i requires 0 <= i < n => a + i)
  }

  /** The addresses of all bytes the link has been asked to transfer, in order. */
  function Touched(log: Log): seq<nat> {
    match log
    case Start => []
    case Then(before, e) =>
      Touched(before) + (if e.Read? then Range(e.address, e.count) else if e.Write? then Range(e.address, |e.bytes|) else [])
  }

  /** Every transaction moves 1 to 64 bytes. */
  predicate Short(log: Log) {
    match log
    case Start => true
    case Then(before, e) =>
      Short(before) && (e.Read? ==> 1 <= e.count <= 64) && (e.Write? ==> 1 <= |e.bytes| <= 64)
  }

  lemma RangeSplit(a: nat, m: nat, n: nat)
    ensures Range(a, m + n) == Range(a, m) + Range(a + m, n)
  {
  }

  lemma VisitNext(t: seq<nat>, a: nat, c: nat, n: nat, at: nat)
    requires c <= n && a + n <= U32 && at == (a + c) % U32 && c < n
    ensures (t + Range(a, c)) + Range(at, n - c) == t + Range(a, n)
  {
    assert at == a + c;
    assert Range(a, n) == Range(a, c) + Range(a + c, n - c);
  }

  lemma {:induction false} WriteVisits(log: Log, address: nat, data: seq<Byte>)
    requires address + |data| <= U32
    ensures Touched(WriteLog(log, address, data)) == Touched(log) + Range(address, |data|)
    ensures Short(log) ==> Short(WriteLog(log, address, data))
    ensures TriggersTaken(WriteLog(log, address, data)) == TriggersTaken(log)
    decreases |data|
  {
    if data != [] {
      var c := LastChunk(|data|);
      VisitNext(Touched(log), address, c, |data|, (address + c) % U32);
      WriteVisits(log, address, data[..c]);
    }
  }

  lemma {:induction false} ReadVisits(log: Log, address: nat, data: seq<Byte>)
    requires address + |data| <= U32
    ensures Touched(ReadLog(log, address, data)) == Touched(log) + Range(address, |data|)
    ensures Short(log) ==> Short(ReadLog(log, address, data))
    ensures TriggersTaken(ReadLog(log, address, data)) == TriggersTaken(log)
    decreases |data|
  {
    if data != [] {
      var c := LastChunk(|data|);
      VisitNext(Touched(log), address, c, |data|, (address + c) % U32);
      ReadVisits(log, address, data[..c]);
    }
  }
}

module HostLink {
  import opened BitVectors
  import opened Wrappers
  import opened Stm8
  import opened FlashController
  import opened Target
  import opened Link
  import opened FlashLog
  import opened EraseRanges
  import opened Flash
  import opened Firmware
  import opened Visits
  import C = FrameCheck
  import E = Enter
  import U = Usb

  const READ_CHUNK := 1024
  const WRITE_CHUNK := 1018

  // The host's own numbers (host/protocol.py, class Command).

  const MEMORY_READ: Byte := 8
  const MEMORY_WRITE: Byte := 9
  const FLASH_ERASE: Byte := 10
  const FLASH_WRITE_BLOCK: Byte := 11
  const ENTER_SWIM: Byte := 4
  const GET_LAST_ERROR: Byte := 13

  /** The host's statuses, in the order of their numbers (host/protocol.py, class Status). */
  datatype HostStatus =
    | OK | BAD_FRAME | BAD_CRC | BAD_COMMAND | BAD_ARGUMENT | SWIM_TIMEOUT | SWIM_NACK | TARGET | UNSUPPORTED
    | FLASH_GUARD | INTERNAL

  const STATUSES := [OK, BAD_FRAME, BAD_CRC, BAD_COMMAND, BAD_ARGUMENT, SWIM_TIMEOUT, SWIM_NACK, TARGET, UNSUPPORTED,
                     FLASH_GUARD, INTERNAL]

  function NameOf(st: Status): HostStatus {
    match st
    case Ok => OK
    case BadArgument => BAD_ARGUMENT
    case Timeout => SWIM_TIMEOUT
    case Nack => SWIM_NACK
    case TargetError => TARGET
    case Unsupported => UNSUPPORTED
  }

  /** A value, or an exception. */
  datatype Outcome<T> = Done(value: T) | Failed

  /** _read_response: a header, and as much more as it announces. */
  function ReadResponse(line: seq<Byte>): U.Decoded {
    if |line| < 10 then U.Error(U.Short)
    else if LeValue(line[..4]) != U.MAGIC || line[4] != U.VERSION then U.Error(U.BadMagic)
    else
      var n := 14 + LeValue(line[8..10]);
      if |line| < n then U.Error(U.Truncated) else U.DecodeResponse(line[..n])
  }

  lemma ResponseRead(command: Byte, sequence: nat, status: nat, payload: seq<Byte>)
    requires sequence < 0x1_0000 && status < |STATUSES| && |payload| <= U.MAX_PAYLOAD
    ensures ReadResponse(U.ResponseBytes(command, sequence, status, payload))
         == U.Decoded.Ok(U.Response(U.OrReply(command), sequence, status, payload))
  {
    var line := U.ResponseBytes(command, sequence, status, payload);
    U.ResponseRoundTrip(command, sequence, status, payload);
    U.ResponseFields(U.OrReply(command), sequence, status, |payload|);
    U.ResponseParts(U.ResponseHeader(U.OrReply(command), sequence, status, |payload|), payload);
    assert line[..|line|] == line;
  }

  /** The status that the host reads from an answer is the one that the firmware gave. */
  lemma StatusNamed(command: Byte, sequence: nat, st: Status, payload: seq<Byte>)
    requires sequence < 0x1_0000 && |payload| <= U.MAX_PAYLOAD
    ensures var d := ReadResponse(U.ResponseBytes(command, sequence, Code(st), payload));
            d.Ok? && d.response.status < |STATUSES| && STATUSES[d.response.status] == NameOf(st)
  {
    var n := Code(st);
    ResponseRead(command, sequence, n, payload);
    CodeNamed(st);
  }

  lemma CodeNamed(st: Status)
    ensures Code(st) < |STATUSES| && STATUSES[Code(st)] == NameOf(st)
  {
  }

  /** As it comes over the line, if the burst leaves the two bytes of its length alone. */
  lemma ResponseBurstUnread(command: Byte, sequence: nat, status: nat, payload: seq<Byte>, g: seq<Byte>,
      rest: seq<Byte>, p: nat)
    requires sequence < 0x1_0000 && status < U.STATUS_COUNT && |payload| <= U.MAX_PAYLOAD
    requires var w := U.ResponseBytes(command, sequence, status, payload);
             g != w && C.DifferWithin(w, g, p) && g[8..10] == w[8..10]
    ensures ReadResponse(g + rest).Error?
  {
    var line := g + rest;
    U.ResponseFields(U.OrReply(command), sequence, status, |payload|);
    U.ResponseParts(U.ResponseHeader(U.OrReply(command), sequence, status, |payload|), payload);
    U.ResponseBurstRefused(command, sequence, status, payload, g, p);
    assert line[8..10] == g[8..10];
    assert line[..|g|] == g;
  }

  lemma EmptyPrefix(s: seq<Byte>)
    ensures [] + s == s
  {
  }

  lemma ParsedAlone(input: seq<Byte>, f: U.Frame)
    requires U.Parse(input + []) == Some((f, []))
    ensures U.Parse(input) == Some((f, []))
  {
    assert input + [] == input;
  }

  lemma {:induction false} Encoded(f: U.Frame)
    requires U.Sendable(f)
    ensures U.EncodeFrame(f.command, f.sequence, f.payload) == Some(U.RequestBytes(f))
  {
    assert U.Frame(f.command, f.sequence % 0x1_0000, f.payload) == f;
  }

  /** An encoded command is parsed as the frame it is. */
  lemma FrameArrives(f: U.Frame)
    requires U.Sendable(f)
    ensures U.EncodeFrame(f.command, f.sequence, f.payload).Some?
    ensures U.Parse(U.EncodeFrame(f.command, f.sequence, f.payload).value) == Some((f, []))
  {
    Encoded(f);
    U.RequestAccepted(f, []);
    ParsedAlone(U.RequestBytes(f), f);
  }

  // ----- payloads -----

  function MemoryPayload(address: nat, count: nat, data: seq<Byte>): seq<Byte> {
    LeBytes(address, 4) + LeBytes(count, 2) + data
  }

  function ErasePayload(address: nat, length: nat): seq<Byte> {
    LeBytes(address, 4) + LeBytes(length, 4)
  }

  lemma WordIsLe(p: seq<Byte>)
    requires |p| == 4
    ensures Word32(p) == LeValue(p)
  {
    assert p[1..][1..][1..][1..] == [];
    assert LeValue(p[1..][1..][1..]) == p[3];
    assert LeValue(p[1..][1..]) == (p[2] as int) + 256 * (p[3] as int);
    assert LeValue(p[1..]) == (p[1] as int) + 256 * ((p[2] as int) + 256 * (p[3] as int));
  }

  lemma HalfIsLe(p: seq<Byte>)
    requires |p| == 2
    ensures Word16(p) == LeValue(p)
  {
    assert p[1..][1..] == [];
    assert LeValue(p[1..]) == p[1];
  }

  /** The firmware reads back what the host packed. */
  lemma MemoryFields(address: nat, count: nat, data: seq<Byte>)
    requires address < U32 && count < 0x1_0000
    ensures var p := MemoryPayload(address, count, data);
            |p| == 6 + |data| && AddressOf(p) == address && Count(p) == count && p[6..] == data
  {
    var p := MemoryPayload(address, count, data);
    assert p[..4] == LeBytes(address, 4) && p[4..6] == LeBytes(count, 2);
    WordIsLe(p[..4]);
    HalfIsLe(p[4..6]);
    U.Pow256Values();
    LeValueOf(address, 4);
    LeValueOf(count, 2);
  }

  lemma EraseFields(address: nat, length: nat)
    requires address < U32 && length < U32
    ensures var p := ErasePayload(address, length);
            |p| == 8 && AddressOf(p) == address && Word32(p[4..8]) == length
  {
    var p := ErasePayload(address, length);
    assert p[..4] == LeBytes(address, 4) && p[4..8] == LeBytes(length, 4);
    WordIsLe(p[..4]);
    WordIsLe(p[4..8]);
    U.Pow256Values();
    LeValueOf(address, 4);
    LeValueOf(length, 4);
  }

  // ----- memory accesses in parts -----

  /** The `n` bytes from `address` on have been visited once each, in ascending order, in
      transactions of 1 to 64 bytes. */
  predicate Visited(origin: Log, here: Log, address: nat, n: nat) {
    && Touched(here) == Touched(origin) + Range(address, n)
    && (Short(origin) ==> Short(here))
    && TriggersTaken(here) == TriggersTaken(origin)
  }

  /** So far the bytes of `data`, from `address` on, have been read. */
  predicate ReadPartly(m: Machine, origin: Site, here: Site, address: nat, data: seq<Byte>) {
    && DmGot(m, here.target, origin.target, address, data)
    && Visited(origin.log, here.log, address, |data|)
  }

  lemma NothingRead(m: Machine, here: Site, address: nat)
    ensures ReadPartly(m, here, here, address, [])
  {
    assert Touched(here.log) + Range(address, 0) == Touched(here.log);
  }

  lemma GotMore(m: Machine, origin: Target, before: Target, here: Target, address: nat,
      data: seq<Byte>, more: seq<Byte>)
    requires DmGot(m, before, origin, address, data) && DmGot(m, here, before, address + |data|, more)
    ensures DmGot(m, here, origin, address, data + more)
  {
    if here.Conforming? {
      ReadAppend(m, origin.dev, address, |data|, |more|);
    }
  }

  lemma VisitedMore(t: seq<nat>, a: nat, m: nat, n: nat)
    ensures (t + Range(a, m)) + Range(a + m, n) == t + Range(a, m + n)
  {
    RangeSplit(a, m, n);
  }

  lemma {:induction false} PartRead(m: Machine, origin: Site, before: Site, here: Site, address: nat,
      data: seq<Byte>, more: seq<Byte>)
    requires address + |data| + |more| <= U32 && ReadPartly(m, origin, before, address, data)
    requires here.log == ReadLog(before.log, address + |data|, more)
    requires DmGot(m, here.target, before.target, address + |data|, more)
    ensures ReadPartly(m, origin, here, address, data + more)
  {
    ReadVisits(before.log, address + |data|, more);
    VisitedMore(Touched(origin.log), address, |data|, |more|);
    GotMore(m, origin.target, before.target, here.target, address, data, more);
  }

  /** So far `n` bytes of `data` have been written. */
  predicate WrittenPartly(m: Machine, origin: Site, here: Site, address: nat, data: seq<Byte>, n: nat)
    requires n <= |data|
  {
    && DmWrote(m, here.target, origin.target, address, data, n)
    && Visited(origin.log, here.log, address, n)
  }

  lemma NothingWritten(m: Machine, here: Site, address: nat, data: seq<Byte>)
    ensures WrittenPartly(m, here, here, address, data, 0)
  {
    assert Touched(here.log) + Range(address, 0) == Touched(here.log);
    assert data[..0] == [];
  }

  lemma WroteMore(m: Machine, origin: Target, before: Target, here: Target, address: nat,
      data: seq<Byte>, done: nat, part: seq<Byte>, n: nat, end: nat)
    requires done + |part| <= |data| && part == data[done..done + |part|] && n <= |part| && end == done + n
    requires DmWrote(m, before, origin, address, data, done) && DmWrote(m, here, before, address + done, part, n)
    ensures DmWrote(m, here, origin, address, data, end)
  {
    if here.Conforming? {
      var x, y := data[..done], part[..n];
      assert data[..end] == x + y;
      WriteAppend(m, origin.dev, address, x, y);
    }
  }

  lemma {:induction false} VisitedPart(origin: Log, before: Log, here: Log, address: nat, done: nat, part: seq<Byte>,
      end: nat)
    requires address + end <= U32 && end == done + |part| && here == WriteLog(before, address + done, part)
    requires Visited(origin, before, address, done)
    ensures Visited(origin, here, address, end)
  {
    WriteVisits(before, address + done, part);
    VisitedMore(Touched(origin), address, done, |part|);
  }

  lemma WrotePart(m: Machine, origin: Site, before: Site, here: Site, address: nat,
      data: seq<Byte>, done: nat, part: seq<Byte>, n: nat, end: nat, ok: bool)
    requires done + |part| <= |data| && part == data[done..done + |part|] && n <= |part| && end == done + n
    requires address + |data| <= U32 && WrittenPartly(m, origin, before, address, data, done)
    requires DmWrote(m, here.target, before.target, address + done, part, n)
    requires ok ==> n == |part| && here.log == WriteLog(before.log, address + done, part)
    ensures DmWrote(m, here.target, origin.target, address, data, end)
    ensures ok ==> WrittenPartly(m, origin, here, address, data, end)
  {
    WroteMore(m, origin.target, before.target, here.target, address, data, done, part, n, end);
    if ok {
      VisitedPart(origin.log, before.log, here.log, address, done, part, end);
    }
  }

  /** A command that may change the target, as it was put on the line. */
  datatype Order = Order(command: Byte, payload: seq<Byte>)

  /** Neither a read nor the lookup of an error. */
  predicate Changing(command: Byte) {
    command != CMD_MEMORY_READ && command != CMD_SWIM_READ && command != CMD_GET_LAST_ERROR
  }

  function Ordered(command: Byte, payload: seq<Byte>): seq<Order> {
    if Changing(command) && |payload| <= U.MAX_PAYLOAD then [Order(command, payload)] else []
  }

  function WriteOrder(address: nat, data: seq<Byte>): Order {
    Order(CMD_MEMORY_WRITE, MemoryPayload(address, |data|, data))
  }

  /** `orders` are the commands sent so far that may change the target. */
  class Probe {
    const fw: Service
    var sequence: nat
    ghost var orders: seq<Order>

    constructor (fw: Service)
      ensures this.fw == fw && sequence == 1 && orders == []
    {
      this.fw, sequence, orders := fw, 1, [];
    }

    /** Between commands the line is quiet. */
    ghost predicate Synced()
      reads this, fw, fw.port
    {
      fw.port.input == [] && fw.port.output == [] && sequence < 0x1_0000 && |fw.lastError| <= MAX_ERROR_TEXT
    }

    ghost function Here(): Site
      reads fw.driver.link
    {
      fw.Here()
    }

    /** _read_response and the checks on it. */
    method ReadAnswer(command: Byte, number: nat, ghost st: Status, ghost response: seq<Byte>)
      returns (r: Outcome<seq<Byte>>)
      requires number < 0x1_0000 && |response| <= U.MAX_PAYLOAD
      requires fw.port.output == U.ResponseBytes(command, number, Code(st), AnswerOf(st, response))
      modifies fw.port`output
      ensures fw.port.output == []
      ensures r == if st == Ok then Done(response) else Failed
    {
      ResponseRead(command, number, Code(st), AnswerOf(st, response));
      var d := ReadResponse(fw.port.output);
      fw.port.output := [];
      if d.Error? || d.response.sequence != number || d.response.command != U.OrReply(command) || d.response.status != 0 {
        return Failed;
      }
      return Done(d.response.payload);
    }

    /** The frame on the line, and the firmware's round of service. */
    method Deliver(frame: seq<Byte>, ghost f: U.Frame) returns (ghost st: Status, ghost response: seq<Byte>)
      requires Synced() && Modelled(f.command) && U.Parse(frame) == Some((f, []))
      modifies fw, fw.port, fw.driver, fw.driver.link
      ensures old(fw.driver.Healthy()) && Fit(f.command, f.payload, old(fw.driver.link.target).dev)
          ==> st == Ok && fw.driver.Healthy() && (IsFlash(f.command) ==> fw.StillReady(old(Here()).log))
      ensures old(fw.driver.Reachable()) && f.command == CMD_ENTER_SWIM
          ==> st == Ok && fw.driver.Healthy() && Here().target.dev == E.Entered(old(Here()).target.dev)
      ensures fw.port.input == [] && |fw.lastError| <= MAX_ERROR_TEXT
      ensures fw.Served(f, [], old(fw.lastError), old(Here()), st, response)
      ensures f.command == CMD_GET_LAST_ERROR ==> fw.driver.message == old(fw.driver.message)
    {
      fw.port.input := frame;
      st, response := fw.Serve();
    }

    /** encode_frame, on a payload that fits. */
    method EncodeRequest(command: Byte, number: nat, payload: seq<Byte>) returns (frame: seq<Byte>)
      requires |payload| <= U.MAX_PAYLOAD && number < 0x1_0000
      ensures U.EncodeFrame(command, number, payload) == Some(frame)
      ensures U.Parse(frame) == Some((U.Frame(command, number, payload), []))
    {
      FrameArrives(U.Frame(command, number, payload));
      frame := U.EncodeFrame(command, number, payload).value;
    }

    /** One command without the error lookup: sent, served, and its answer checked. */
    method Transact(command: Byte, payload: seq<Byte>)
      returns (r: Outcome<seq<Byte>>, ghost st: Status, ghost response: seq<Byte>)
      requires Synced() && Modelled(command) && |payload| <= U.MAX_PAYLOAD
      modifies this, fw, fw.port, fw.driver, fw.driver.link
      ensures sequence == (old(sequence) + 1) % 0x1_0000
      ensures old(fw.driver.Healthy()) && Fit(command, payload, old(fw.driver.link.target).dev)
          ==> st == Ok && fw.driver.Healthy() && (IsFlash(command) ==> fw.StillReady(old(Here()).log))
      ensures old(fw.driver.Reachable()) && command == CMD_ENTER_SWIM
          ==> st == Ok && fw.driver.Healthy() && Here().target.dev == E.Entered(old(Here()).target.dev)
      ensures Synced()
      ensures Handled(fw.driver.link.m, command, payload, old(Here()), Here(), st, response)
      ensures r == if st == Ok then Done(response) else Failed
      ensures fw.lastError == if st == Ok then old(fw.lastError) else Kept(fw.text(st, fw.driver.message))
      ensures orders == old(orders) + Ordered(command, payload)
      ensures command == CMD_GET_LAST_ERROR ==> response == old(fw.lastError) && fw.driver.message == old(fw.driver.message)
    {
      var number := sequence;
      sequence := (sequence + 1) % 0x1_0000;
      var frame := EncodeRequest(command, number, payload);
      orders := orders + Ordered(command, payload);
      st, response := Deliver(frame, U.Frame(command, number, payload));
      EmptyPrefix(U.ResponseBytes(command, number, Code(st), AnswerOf(st, response)));
      r := ReadAnswer(command, number, st, response);
    }

    /** Probe.command: the number advances before the payload is looked at, and an error is
        looked up with another command before it is raised with its wording. */
    method Command(command: Byte, payload: seq<Byte>)
      returns (r: Outcome<seq<Byte>>, detail: seq<Byte>, ghost st: Status, ghost response: seq<Byte>)
      requires Synced() && Modelled(command)
      modifies this, fw, fw.port, fw.driver, fw.driver.link
      ensures var sent := if |payload| <= U.MAX_PAYLOAD && r == Failed && command != CMD_GET_LAST_ERROR then 2 else 1;
              sequence == (old(sequence) + sent) % 0x1_0000
      ensures old(fw.driver.Healthy()) && |payload| <= U.MAX_PAYLOAD && Fit(command, payload, old(fw.driver.link.target).dev)
          ==> st == Ok && fw.driver.Healthy() && (IsFlash(command) ==> fw.StillReady(old(Here()).log))
      ensures old(fw.driver.Reachable()) && command == CMD_ENTER_SWIM && |payload| <= U.MAX_PAYLOAD
          ==> st == Ok && fw.driver.Healthy() && Here().target.dev == E.Entered(old(Here()).target.dev)
      ensures Synced()
      ensures |payload| > U.MAX_PAYLOAD ==> r == Failed && Here() == old(Here())
      ensures orders == old(orders) + Ordered(command, payload)
      ensures |payload| <= U.MAX_PAYLOAD ==>
                && Handled(fw.driver.link.m, command, payload, old(Here()), Here(), st, response)
                && r == if st == Ok then Done(response) else Failed
      ensures |payload| <= U.MAX_PAYLOAD && r == Failed && command != CMD_GET_LAST_ERROR
          ==> detail == Kept(fw.text(st, fw.driver.message))
    {
      detail := [];
      if |payload| > U.MAX_PAYLOAD {
        sequence := (sequence + 1) % 0x1_0000;
        return Failed, [], BadArgument, [];
      }
      r, st, response := Transact(command, payload);
      if r == Failed && command != GET_LAST_ERROR {
        ghost var s, t;
        var found;
        found, s, t := Transact(GET_LAST_ERROR, []);
        if found.Done? {
          detail := found.value;
        }
      }
    }

    /** Probe.enter_swim */
    method EnterSwim() returns (ok: bool)
      requires Synced()
      modifies this, fw, fw.port, fw.driver, fw.driver.link
      ensures Synced()
      ensures orders == old(orders) + [Order(CMD_ENTER_SWIM, [])]
      ensures E.OnlyDebug(fw.driver.link.m, old(Here()).target, Here().target) && SameTriggers(Here().log, old(Here()).log)
      ensures ok && fw.driver.link.m == STM8 && Here().target.Conforming? ==> E.Stalled(Here().target.dev.mem[DM_CSR2])
      ensures old(fw.driver.Reachable())
          ==> ok && fw.driver.Healthy() && Here().target.dev == E.Entered(old(Here()).target.dev)
    {
      ghost var st, response;
      var detail;
      var r;
      r, detail, st, response := Command(ENTER_SWIM, []);
      ok := r.Done?;
    }

    /** One MEMORY_READ command. */
    method ReadPart(address: nat, data: seq<Byte>, part: nat, ghost origin: Site) returns (r: Outcome<seq<Byte>>)
      requires Synced() && address + |data| < U32 && 0 < part <= READ_CHUNK
      requires ReadPartly(fw.driver.link.m, origin, Here(), address, data)
      modifies this, fw, fw.port, fw.driver, fw.driver.link
      ensures old(fw.driver.Healthy()) ==> r.Done? && fw.driver.Healthy()
      ensures Synced() && orders == old(orders)
      ensures r.Done? ==> |r.value| == part && sequence == (old(sequence) + 1) % 0x1_0000
      ensures r.Done? && address + |data| + part <= U32
          ==> ReadPartly(fw.driver.link.m, origin, Here(), address, data + r.value)
    {
      ghost var st, response;
      var detail;
      ghost var before, m := Here(), fw.driver.link.m;
      var at := address + |data|;
      var payload := MemoryPayload(at, part, []);
      MemoryFields(at, part, []);
      r, detail, st, response := Command(MEMORY_READ, payload);
      if r.Done? && at + part <= U32 {
        PartRead(m, origin, before, Here(), address, data, r.value);
      }
    }

    /** Probe.read_memory; struct.pack refuses an address of more than 32 bits. */
    method ReadMemory(address: nat, length: nat) returns (r: Outcome<seq<Byte>>)
      requires Synced()
      modifies this, fw, fw.port, fw.driver, fw.driver.link
      ensures old(fw.driver.Healthy()) && address + length <= U32 ==> r.Done? && fw.driver.Healthy()
      ensures Synced() && orders == old(orders)
      ensures r.Done? ==> |r.value| == length
      ensures r.Done? && 0 < length <= U.MAX_PAYLOAD ==> sequence == (old(sequence) + 1) % 0x1_0000
      ensures r.Done? && address + length <= U32 ==> ReadPartly(fw.driver.link.m, old(Here()), Here(), address, r.value)
    {
      var data: seq<Byte> := [];
      NothingRead(fw.driver.link.m, Here(), address);
      while |data| < length
        invariant old(fw.driver.Healthy()) && address + length <= U32 ==> fw.driver.Healthy()
        invariant Synced() && orders == old(orders) && |data| <= length
        invariant length <= READ_CHUNK && data == [] ==> sequence == old(sequence)
        invariant length <= READ_CHUNK && data != [] ==> |data| == length && sequence == (old(sequence) + 1) % 0x1_0000
        invariant address + |data| <= U32 ==> ReadPartly(fw.driver.link.m, old(Here()), Here(), address, data)
      {
        var part := if length - |data| < READ_CHUNK then length - |data| else READ_CHUNK;
        if address + |data| >= U32 {
          return Failed;
        }
        var more := ReadPart(address, data, part, old(Here()));
        if more.Failed? {
          return Failed;
        }
        data := data + more.value;
      }
      return Done(data);
    }

    /** One MEMORY_WRITE command. */
    method WriteCommand(address: nat, part: seq<Byte>) returns (ok: bool, ghost taken: nat)
      requires Synced() && address < U32 && |part| <= WRITE_CHUNK
      modifies this, fw, fw.port, fw.driver, fw.driver.link
      ensures old(fw.driver.Healthy()) ==> ok && fw.driver.Healthy()
      ensures Synced() && taken <= |part| && (ok ==> taken == |part|)
      ensures orders == old(orders) + [WriteOrder(address, part)]
      ensures ok ==> Here().log == WriteLog(old(Here()).log, address, part)
      ensures DmWrote(fw.driver.link.m, Here().target, old(Here()).target, address, part, taken)
    {
      ghost var st, response;
      var detail;
      ghost var before := Here();
      ghost var p := MemoryPayload(address, |part|, part);
      MemoryFields(address, |part|, part);
      var r;
      r, detail, st, response := Command(MEMORY_WRITE, MemoryPayload(address, |part|, part));
      ok := r.Done?;
      assert WriteHandled(fw.driver.link.m, p, before, Here(), st);
      if ok {
        taken := |part|;
      } else {
        ghost var n :| 0 <= n <= |p| - 6 && DmWrote(fw.driver.link.m, Here().target, before.target, AddressOf(p), p[6..], n);
        taken := n;
      }
    }

    /** A part of a longer write. */
    method WritePart(address: nat, data: seq<Byte>, done: nat, part: seq<Byte>, ghost origin: Site)
      returns (ok: bool, ghost taken: nat)
      requires Synced() && address + done < U32 && done + |part| <= |data|
      requires part == data[done..done + |part|] && |part| <= WRITE_CHUNK
      requires address + |data| <= U32 ==> WrittenPartly(fw.driver.link.m, origin, Here(), address, data, done)
      modifies this, fw, fw.port, fw.driver, fw.driver.link
      ensures old(fw.driver.Healthy()) ==> ok && fw.driver.Healthy()
      ensures Synced() && taken <= done + |part| && (ok ==> taken == done + |part|)
      ensures orders == old(orders) + [WriteOrder(address + done, part)]
      ensures ok && address + |data| <= U32 ==> WrittenPartly(fw.driver.link.m, origin, Here(), address, data, taken)
      ensures address + |data| <= U32 ==> DmWrote(fw.driver.link.m, Here().target, origin.target, address, data, taken)
    {
      ghost var before, m := Here(), fw.driver.link.m;
      var at := address + done;
      ghost var n;
      ok, n := WriteCommand(at, part);
      taken := done + n;
      if address + |data| <= U32 {
        WrotePart(m, origin, before, Here(), address, data, done, part, n, taken, ok);
      }
    }

    /** Probe.write_memory. Whatever happens, the target holds a prefix of the data. */
    method WriteMemory(address: nat, data: seq<Byte>) returns (ok: bool, ghost taken: nat)
      requires Synced()
      modifies this, fw, fw.port, fw.driver, fw.driver.link
      ensures old(fw.driver.Healthy()) && address + |data| <= U32 ==> ok && fw.driver.Healthy()
      ensures Synced() && taken <= |data| && (ok ==> taken == |data|)
      ensures 0 < |data| && 6 + |data| <= U.MAX_PAYLOAD && address < U32
          ==> orders == old(orders) + [WriteOrder(address, data)]
      ensures ok && address + |data| <= U32 ==> WrittenPartly(fw.driver.link.m, old(Here()), Here(), address, data, |data|)
      ensures address + |data| <= U32 ==> DmWrote(fw.driver.link.m, Here().target, old(Here()).target, address, data, taken)
    {
      var done := 0;
      taken := 0;
      ghost var whole := WriteOrder(address, data);
      assert |data| > 0 ==> data[0..|data|] == data;
      NothingWritten(fw.driver.link.m, Here(), address, data);
      while done < |data|
        invariant old(fw.driver.Healthy()) && address + |data| <= U32 ==> fw.driver.Healthy()
        invariant Synced() && done <= |data| && taken == done && (done == 0 || done == |data| || done >= WRITE_CHUNK)
        invariant |data| <= WRITE_CHUNK ==> orders == old(orders) + if done == 0 then [] else [whole]
        invariant address + |data| <= U32 ==> WrittenPartly(fw.driver.link.m, old(Here()), Here(), address, data, done)
      {
        var end := if |data| - done < WRITE_CHUNK then |data| else done + WRITE_CHUNK;
        if address + done >= U32 {
          return false, taken;
        }
        ok, taken := WritePart(address, data, done, data[done..end], old(Here()));
        if !ok {
          return;
        }
        done := end;
      }
      ok := true;
    }

    /** Probe.flash_erase; struct.pack refuses more than 32 bits. */
    method FlashErase(address: nat, length: nat) returns (ok: bool)
      requires Synced()
      modifies this, fw, fw.port, fw.driver, fw.driver.link
      ensures old(fw.driver.Healthy()) && Ready(old(Here()).target.dev) && length > 0 && InFlash(address, length)
          ==> ok && fw.driver.Healthy() && Ready(Here().target.dev)
              && TriggersTaken(Here().log) == TriggersTaken(old(Here()).log)
      ensures Synced()
      ensures address < U32 && length < U32 ==> orders == old(orders) + [Order(CMD_FLASH_ERASE, ErasePayload(address, length))]
      ensures TriggersTaken(Here().log) ==> TriggersTaken(old(Here()).log)
      ensures ok && length > 0 ==>
                ErasedTo(fw.driver.link.m, old(Here()).target, Here().target, Here().log,
                         BlockStart(address), BlockCount(address, length))
    {
      if address >= U32 || length >= U32 {
        return false;
      }
      ghost var st, response;
      var detail;
      ghost var before := Here();
      EraseFields(address, length);
      var r;
      r, detail, st, response := Command(FLASH_ERASE, ErasePayload(address, length));
      assert EraseHandled(fw.driver.link.m, ErasePayload(address, length), before, Here(), st);
      ok := r.Done?;
    }

    /** Probe.flash_write_block */
    method FlashWriteBlock(address: nat, data: seq<Byte>) returns (ok: bool)
      requires Synced()
      modifies this, fw, fw.port, fw.driver, fw.driver.link
      ensures old(fw.driver.Healthy()) && Ready(old(Here()).target.dev) && |data| <= WRITE_CHUNK && InFlash(address, |data|)
          ==> ok && fw.driver.Healthy() && Ready(Here().target.dev)
              && TriggersTaken(Here().log) == TriggersTaken(old(Here()).log)
      ensures Synced()
      ensures address < U32 && |data| <= WRITE_CHUNK
          ==> orders == old(orders) + [Order(CMD_FLASH_WRITE_BLOCK, MemoryPayload(address, |data|, data))]
      ensures TriggersTaken(Here().log) ==> TriggersTaken(old(Here()).log)
      ensures ok && data != [] ==>
                && Here().target.Conforming? == old(Here()).target.Conforming?
                && BlockProgrammed(fw.driver.link.m, old(Here()).target, Here().target, Here().log, address, data)
    {
      if address >= U32 || |data| >= 0x1_0000 {
        return false;
      }
      ghost var st, response;
      var detail;
      ghost var before := Here();
      MemoryFields(address, |data|, data);
      var r;
      r, detail, st, response := Command(FLASH_WRITE_BLOCK, MemoryPayload(address, |data|, data));
      if r.Done? {
        assert BlockHandled(fw.driver.link.m, MemoryPayload(address, |data|, data), before, Here(), st);
      }
      ok := r.Done?;
    }
  }
}
