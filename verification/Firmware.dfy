/**
The firmware's side of a command: the entry and the memory and flash commands of
handle_frame, and one round of the service loop.
*/
module Firmware {
  import opened BitVectors
  import opened Wrappers
  import opened Stm8
  import opened FlashController
  import opened Target
  import opened Link
  import opened Enter
  import opened FlashLog
  import opened EraseRanges
  import opened Flash
  import U = Usb

  const CMD_ENTER_SWIM: Byte := 0x04
  const CMD_SWIM_READ: Byte := 0x06
  const CMD_SWIM_WRITE: Byte := 0x07
  const CMD_MEMORY_READ: Byte := 0x08
  const CMD_MEMORY_WRITE: Byte := 0x09
  const CMD_FLASH_ERASE: Byte := 0x0A
  const CMD_FLASH_WRITE_BLOCK: Byte := 0x0B
  const CMD_FLASH_VERIFY: Byte := 0x0C
  const CMD_GET_LAST_ERROR: Byte := 0x0D
  const CMD_OPTION_WRITE_BYTE: Byte := 0x11

  const MAX_ERROR_TEXT := 96

  predicate Modelled(command: Byte) {
    || command == CMD_ENTER_SWIM || command == CMD_OPTION_WRITE_BYTE
    || CMD_SWIM_READ <= command <= CMD_GET_LAST_ERROR
  }

  function Code(st: Status): nat {
    match st
    case Ok => 0
    case BadArgument => 4
    case Timeout => 5
    case Nack => 6
    case TargetError => 7
    case Unsupported => 8
  }

  // ----- request fields -----

  function Word32(p: seq<Byte>): (w: nat)
    requires |p| == 4
    ensures w < U32
  {
    (p[0] as int) + 0x100 * (p[1] as int) + 0x1_0000 * (p[2] as int) + 0x100_0000 * (p[3] as int)
  }

  function Word16(p: seq<Byte>): (w: nat)
    requires |p| == 2
    ensures w < 0x1_0000
  {
    (p[0] as int) + 0x100 * (p[1] as int)
  }

  function AddressOf(p: seq<Byte>): nat
    requires |p| >= 4
  {
    Word32(p[..4])
  }

  function Count(p: seq<Byte>): nat
    requires |p| >= 6
  {
    Word16(p[4..6])
  }

  /** The length guard compares with a 16-bit sum, which wraps. */
  predicate LengthMatches(p: seq<Byte>)
    requires |p| >= 6
  {
    |p| == (6 + Count(p)) % 0x1_0000
  }

  /** It is exact all the same: no count passes but the number of bytes that follow. */
  lemma GuardExact(p: seq<Byte>)
    requires 6 <= |p| <= U.MAX_PAYLOAD
    ensures LengthMatches(p) <==> |p| == 6 + Count(p)
  {
  }

  // ----- what each command does -----

  /** The state that commands act on: the target and the log of link events. */
  datatype Site = Site(target: Target, log: Log)

  /** A command that was refused before it did anything. */
  predicate Refused(before: Site, after: Site, st: Status) {
    st == BadArgument && after == before
  }

  ghost predicate EnterHandled(m: Machine, before: Site, after: Site, st: Status) {
    && OnlyDebug(m, before.target, after.target) && SameTriggers(after.log, before.log)
    && (st == Ok && m == STM8 && after.target.Conforming? ==> Stalled(after.target.dev.mem[DM_CSR2]))
  }

  ghost predicate ReadHandled(m: Machine, p: seq<Byte>, before: Site, after: Site, st: Status, response: seq<Byte>) {
    if |p| < 6 || Count(p) > U.MAX_PAYLOAD then Refused(before, after, st)
    else
      && (exists n :: 0 <= n <= Count(p) && DmReadOn(m, after.target, before.target, AddressOf(p), n))
      && (st == Ok ==>
            && |response| == Count(p)
            && after.log == ReadLog(before.log, AddressOf(p), response)
            && DmGot(m, after.target, before.target, AddressOf(p), response))
  }

  ghost predicate WriteHandled(m: Machine, p: seq<Byte>, before: Site, after: Site, st: Status) {
    if |p| < 6 || |p| != 6 + Count(p) then Refused(before, after, st)
    else
      && (exists taken :: 0 <= taken <= |p| - 6 && DmWrote(m, after.target, before.target, AddressOf(p), p[6..], taken))
      && (st == Ok ==>
            && after.log == WriteLog(before.log, AddressOf(p), p[6..])
            && DmWrote(m, after.target, before.target, AddressOf(p), p[6..], |p| - 6))
  }

  ghost predicate EraseHandled(m: Machine, p: seq<Byte>, before: Site, after: Site, st: Status) {
    if |p| < 8 then Refused(before, after, st)
    else
      var address, length := AddressOf(p), Word32(p[4..8]);
      && after.target.Conforming? == before.target.Conforming?
      && (TriggersTaken(after.log) ==> TriggersTaken(before.log))
      && EraseBegun(after.log, before.log, address, length)
      && (length == 0 ==> st == Ok && after.target == before.target)
      && (st == Ok && length > 0 ==>
            && Triggers(after.log) == Triggers(before.log) + EraseWrites(BlockStart(address), BlockCount(address, length))
            && ErasedTo(m, before.target, after.target, after.log, BlockStart(address), BlockCount(address, length)))
  }

  ghost predicate BlockHandled(m: Machine, p: seq<Byte>, before: Site, after: Site, st: Status) {
    if |p| < 6 || |p| != 6 + Count(p) then Refused(before, after, st)
    else
      && after.target.Conforming? == before.target.Conforming?
      && (TriggersTaken(after.log) ==> TriggersTaken(before.log))
      && ProgramBegun(after.log, before.log, AddressOf(p), p[6..])
      && (st == Ok ==> BlockWritten(m, before, after, AddressOf(p), p[6..]))
  }

  /** Nothing to write, or everything written. */
  ghost predicate BlockWritten(m: Machine, before: Site, after: Site, address: nat, data: seq<Byte>) {
    if data == [] then after == before
    else
      && BlockProgrammed(m, before.target, after.target, after.log, address, data)
      && (AllTriggers(address, |data|) ==> Triggers(after.log) == Triggers(before.log) + ProgramWrites(address, data))
  }

  ghost predicate OptionHandled(m: Machine, p: seq<Byte>, before: Site, after: Site, st: Status) {
    if |p| < 5 then Refused(before, after, st)
    else
      && after.target.Conforming? == before.target.Conforming?
      && (!InOption(AddressOf(p)) ==> Refused(before, after, st))
      && OptionSent(after.log, before.log, AddressOf(p), p[4], st == Ok)
      && (TriggersTaken(after.log) ==> TriggersTaken(before.log))
      && (st == Ok && m == STM8 && after.target.Conforming? && TriggersTaken(after.log) && before.target.dev.work.Quiet?
          ==> InOption(AddressOf(p)) && OptionStored(before.target.dev, after.target.dev, AddressOf(p), p[4]))
  }

  /** What a command with payload `p` may do and answer. */
  ghost predicate Handled(m: Machine, command: Byte, p: seq<Byte>, before: Site, after: Site, st: Status,
      response: seq<Byte>) {
    && |response| <= U.MAX_PAYLOAD
    && (command == CMD_ENTER_SWIM ==> EnterHandled(m, before, after, st))
    && (command == CMD_SWIM_READ || command == CMD_MEMORY_READ ==> ReadHandled(m, p, before, after, st, response))
    && (command == CMD_SWIM_WRITE || command == CMD_MEMORY_WRITE ==> WriteHandled(m, p, before, after, st))
    && (command == CMD_FLASH_ERASE ==> EraseHandled(m, p, before, after, st))
    && (command == CMD_FLASH_WRITE_BLOCK ==> BlockHandled(m, p, before, after, st))
    && (command == CMD_OPTION_WRITE_BYTE ==> OptionHandled(m, p, before, after, st))
    && (command == CMD_FLASH_VERIFY ==> st == Unsupported && after == before)
    && (command == CMD_GET_LAST_ERROR ==> st == Ok && after == before)
  }

  /** A command that a healthy controller in state `d` carries out. */
  predicate Fit(command: Byte, p: seq<Byte>, d: Stm8.Device) {
    if command == CMD_SWIM_READ || command == CMD_MEMORY_READ then |p| >= 6 && Count(p) <= U.MAX_PAYLOAD
    else if command == CMD_SWIM_WRITE || command == CMD_MEMORY_WRITE then |p| >= 6 && |p| == 6 + Count(p)
    else if command == CMD_FLASH_ERASE then
      |p| >= 8 && Word32(p[4..8]) > 0 && InFlash(AddressOf(p), Word32(p[4..8])) && Ready(d)
    else if command == CMD_FLASH_WRITE_BLOCK then |p| >= 6 && |p| == 6 + Count(p) && InFlash(AddressOf(p), Count(p)) && Ready(d)
    else false
  }

  predicate IsFlash(command: Byte) {
    command == CMD_FLASH_ERASE || command == CMD_FLASH_WRITE_BLOCK
  }

  /** What the service loop sends back: no payload with an error. */
  function AnswerOf(st: Status, response: seq<Byte>): seq<Byte> {
    if st == Ok then response else []
  }

  /** snprintf into the error buffer, whose last byte is the terminator. */
  function Kept(text: seq<Byte>): (k: seq<Byte>)
    ensures k == if |text| <= 95 then text else text[..95]
  {
    if |text| < MAX_ERROR_TEXT then text else text[..MAX_ERROR_TEXT - 1]
  }

  /** `text` is the wording of an error, by its status and whether the flash driver has left
      a message. */
  class Service {
    const port: U.Port
    const driver: Driver
    const text: (Status, bool) -> seq<Byte>
    var lastError: seq<Byte>

    constructor (port: U.Port, driver: Driver, text: (Status, bool) -> seq<Byte>, none: seq<Byte>)
      ensures this.port == port && this.driver == driver && this.text == text && lastError == none
    {
      this.port, this.driver, this.text, lastError := port, driver, text, none;
    }

    ghost function Here(): Site
      reads driver.link
    {
      Site(driver.link.target, driver.link.log)
    }

    /** The controller is ready for the next flash command, and the driver's assumption is as
        it was. */
    ghost predicate StillReady(log: Log)
      reads driver.link
    {
      driver.link.target.Conforming? && Ready(driver.link.target.dev) && TriggersTaken(driver.link.log) == TriggersTaken(log)
    }

    /** handle_frame, for the entry and the memory and flash commands. */
    method Handle(f: U.Frame) returns (st: Status, response: seq<Byte>)
      requires Modelled(f.command) && |f.payload| <= U.MAX_PAYLOAD && |lastError| <= MAX_ERROR_TEXT
      modifies driver, driver.link
      ensures old(driver.Healthy()) && Fit(f.command, f.payload, old(driver.link.target).dev)
          ==> st == Ok && driver.Healthy()
              && (IsFlash(f.command) ==>
                    Ready(driver.link.target.dev) && TriggersTaken(driver.link.log) == TriggersTaken(old(driver.link.log)))
      ensures old(driver.Reachable()) && f.command == CMD_ENTER_SWIM
          ==> st == Ok && driver.Healthy() && driver.link.target.dev == Entered(old(driver.link.target).dev)
      ensures Handled(driver.link.m, f.command, f.payload, old(Here()), Here(), st, response)
      ensures f.command == CMD_GET_LAST_ERROR ==> response == lastError && driver.message == old(driver.message)
    {
      var p := f.payload;
      response := [];
      if f.command == CMD_ENTER_SWIM {
        st := HandleEnter();
      } else if f.command == CMD_SWIM_READ || f.command == CMD_MEMORY_READ {
        st, response := HandleRead(p);
      } else if f.command == CMD_SWIM_WRITE || f.command == CMD_MEMORY_WRITE {
        st := HandleWrite(p);
      } else if f.command == CMD_FLASH_ERASE {
        st := HandleErase(p);
      } else if f.command == CMD_FLASH_WRITE_BLOCK {
        st := HandleBlock(p);
      } else if f.command == CMD_OPTION_WRITE_BYTE {
        st := HandleOption(p);
      } else if f.command == CMD_FLASH_VERIFY {
        return Unsupported, [];
      } else {
        return Ok, lastError;
      }
    }

    method HandleEnter() returns (st: Status)
      modifies driver.link
      ensures old(driver.Reachable())
          ==> st == Ok && driver.Healthy() && driver.link.target.dev == Entered(old(driver.link.target).dev)
      ensures EnterHandled(driver.link.m, old(Here()), Here(), st)
    {
      var session := new Session(driver.link);
      st := session.Enter();
    }

    method HandleRead(p: seq<Byte>) returns (st: Status, response: seq<Byte>)
      modifies driver.link`target, driver.link`pad, driver.link`log
      ensures old(driver.Healthy()) && |p| >= 6 && Count(p) <= U.MAX_PAYLOAD ==> st == Ok && driver.Healthy()
      ensures ReadHandled(driver.link.m, p, old(Here()), Here(), st, response)
      ensures |response| <= U.MAX_PAYLOAD
    {
      if |p| < 6 || Count(p) > U.MAX_PAYLOAD {
        return BadArgument, [];
      }
      ghost var taken;
      ghost var before := driver.link.target;
      st, response, taken := driver.link.DmRead(AddressOf(p), Count(p));
      if before.Conforming? && Prompt(before.dev) {
        StaysPromptAlways(before.dev, AddressOf(p), taken, []);
      }
      if st != Ok {
        response := [];
      }
    }

    method HandleWrite(p: seq<Byte>) returns (st: Status)
      requires |p| <= U.MAX_PAYLOAD
      modifies driver.link`target, driver.link`pad, driver.link`log
      ensures old(driver.Healthy()) && |p| >= 6 && |p| == 6 + Count(p) ==> st == Ok && driver.Healthy()
      ensures WriteHandled(driver.link.m, p, old(Here()), Here(), st)
    {
      if |p| < 6 {
        return BadArgument;
      }
      GuardExact(p);
      if !LengthMatches(p) {
        return BadArgument;
      }
      ghost var taken, done;
      ghost var before := driver.link.target;
      st, taken, done := driver.link.DmWrite(AddressOf(p), p[6..]);
      if before.Conforming? && Prompt(before.dev) {
        StaysPromptAlways(before.dev, AddressOf(p), 0, p[6..][..taken]);
      }
    }

    method HandleErase(p: seq<Byte>) returns (st: Status)
      modifies driver, driver.link`ready, driver.link`low, driver.link`syncs
      modifies driver.link`target, driver.link`pad, driver.link`log
      ensures old(driver.Healthy()) && Fit(CMD_FLASH_ERASE, p, old(driver.link.target).dev)
          ==> st == Ok && driver.Healthy()
              && (IsFlash(CMD_FLASH_ERASE) ==>
                    Ready(driver.link.target.dev) && TriggersTaken(driver.link.log) == TriggersTaken(old(driver.link.log)))
      ensures EraseHandled(driver.link.m, p, old(Here()), Here(), st)
    {
      if |p| < 8 {
        return BadArgument;
      }
      st := driver.EraseRange(AddressOf(p), Word32(p[4..8]));
    }

    method HandleOption(p: seq<Byte>) returns (st: Status)
      modifies driver, driver.link`ready, driver.link`low, driver.link`syncs
      modifies driver.link`target, driver.link`pad, driver.link`log
      ensures OptionHandled(driver.link.m, p, old(Here()), Here(), st)
    {
      if |p| < 5 {
        return BadArgument;
      }
      st := driver.WriteOptionByte(AddressOf(p), p[4]);
    }

    method HandleBlock(p: seq<Byte>) returns (st: Status)
      requires |p| <= U.MAX_PAYLOAD
      modifies driver, driver.link`ready, driver.link`low, driver.link`syncs
      modifies driver.link`target, driver.link`pad, driver.link`log
      ensures old(driver.Healthy()) && Fit(CMD_FLASH_WRITE_BLOCK, p, old(driver.link.target).dev)
          ==> st == Ok && driver.Healthy()
              && (IsFlash(CMD_FLASH_WRITE_BLOCK) ==>
                    Ready(driver.link.target.dev) && TriggersTaken(driver.link.log) == TriggersTaken(old(driver.link.log)))
      ensures BlockHandled(driver.link.m, p, old(Here()), Here(), st)
    {
      if |p| < 6 {
        return BadArgument;
      }
      GuardExact(p);
      if !LengthMatches(p) {
        return BadArgument;
      }
      ghost var exit;
      st, exit := driver.WriteBlock(AddressOf(p), p[6..]);
    }

    /** set_last_error */
    method SetLastError(st: Status)
      modifies `lastError
      ensures lastError == Kept(text(st, driver.message))
    {
      lastError := Kept(text(st, driver.message));
    }

    /** What a round does with the request `f`, of which `rest` is left on the line. */
    ghost predicate Served(f: U.Frame, output: seq<Byte>, error: seq<Byte>, before: Site, st: Status, response: seq<Byte>)
      reads this, port, driver, driver.link
    {
      && Handled(driver.link.m, f.command, f.payload, before, Here(), st, response)
      && port.output == output + U.ResponseBytes(f.command, f.sequence, Code(st), if st == Ok then response else [])
      && lastError == (if st == Ok then error else Kept(text(st, driver.message)))
      && (f.command == CMD_GET_LAST_ERROR ==> response == error)
      && |response| <= U.MAX_PAYLOAD
    }

    /** A request, and its answer on the line. */
    method Respond(f: U.Frame) returns (st: Status, response: seq<Byte>)
      requires Modelled(f.command) && U.Sendable(f) && |lastError| <= MAX_ERROR_TEXT
      modifies this, port, driver, driver.link
      ensures port.input == old(port.input) && |lastError| <= MAX_ERROR_TEXT
      ensures Served(f, old(port.output), old(lastError), old(Here()), st, response)
      ensures f.command == CMD_GET_LAST_ERROR ==> driver.message == old(driver.message)
      ensures old(driver.Healthy()) && Fit(f.command, f.payload, old(driver.link.target).dev)
          ==> st == Ok && driver.Healthy() && (IsFlash(f.command) ==> StillReady(old(driver.link.log)))
      ensures old(driver.Reachable()) && f.command == CMD_ENTER_SWIM
          ==> st == Ok && driver.Healthy() && driver.link.target.dev == Entered(old(driver.link.target).dev)
    {
      st, response := Handle(f);
      if st != Ok {
        SetLastError(st);
      }
      port.WriteResponse(f.command, f.sequence, Code(st), AnswerOf(st, response));
    }

    /** One round of the service loop. What does not parse is dropped without an answer. */
    method Serve() returns (ghost st: Status, ghost response: seq<Byte>)
      requires U.Parse(port.input).Some? ==> Modelled(U.Parse(port.input).value.0.command)
      requires |lastError| <= MAX_ERROR_TEXT
      modifies this, port, driver, driver.link
      ensures |lastError| <= MAX_ERROR_TEXT
      ensures match U.Parse(old(port.input))
              case None =>
                && port.output == old(port.output) && Here() == old(Here()) && lastError == old(lastError)
                && |port.input| <= |old(port.input)| && port.input == old(port.input)[|old(port.input)| - |port.input|..]
              case Some((f, rest)) =>
                && port.input == rest
                && Served(f, old(port.output), old(lastError), old(Here()), st, response)
                && (f.command == CMD_GET_LAST_ERROR ==> driver.message == old(driver.message))
      ensures U.Parse(old(port.input)).Some? ==>
                var f := U.Parse(old(port.input)).value.0;
                && (old(driver.Healthy()) && Fit(f.command, f.payload, old(driver.link.target).dev)
                    ==> st == Ok && driver.Healthy() && (IsFlash(f.command) ==> StillReady(old(driver.link.log))))
                && (old(driver.Reachable()) && f.command == CMD_ENTER_SWIM
                    ==> st == Ok && driver.Healthy() && driver.link.target.dev == Entered(old(driver.link.target).dev))
    {
      st, response := Ok, [];
      if U.Parse(port.input).Some? {
        U.AcceptedIsRequest(port.input);
      }
      var frame := port.ReadFrame();
      if frame.None? {
        return;
      }
      st, response := Respond(frame.value);
    }
  }
}
