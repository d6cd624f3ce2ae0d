/**
The target's side of the SWIM protocol (UM0470 sections 3.3 to 3.5) as a reactive
automaton, and what the noise on the line can do to it.
*/
module Target {
  import opened BitVectors
  import opened Stm8
  import F = SwimFrame

  /** What the host puts on the line: a command frame, a byte frame, or the single bit
      that answers a target frame. */
  datatype Sent = Command(bits: seq<bool>) | Data(bits: seq<bool>) | Ack(ack: bool)

  /** What the host receives: nothing before the deadline, or a word, first bit on top. */
  datatype Reply = Silence | Heard(bits: seq<bool>)

  /**
  A conforming target is between transactions, collects the count and the three address
  bytes, takes data bytes, or has sent the byte `last` and waits for the host's answer.
  */
  datatype Phase =
    | Idle
    | Head(read: bool, got: seq<Byte>)
    | Writing(address: Address, left: nat)
    | Reading(address: Address, left: nat, last: Byte)

  /**
  What happens to one exchange. `Refused`: the target is busy or found the frame damaged;
  it takes nothing and answers NACK. `Lost`: the frame does not reach the target.
  `Unheard`: the target takes it, its answer does not reach the host. `Flipped`: an odd
  number of the bits of its answer arrive inverted, unless it is a NACK.
  */
  datatype Fault = Clean | Refused | Lost | Unheard | Flipped(flips: seq<bool>)

  /** A target that conforms, under a list of faults to come; or any target at all, as the
      list of its replies to come. */
  datatype Target =
    | Conforming(phase: Phase, dev: Device, faults: seq<Fault>)
    | Wild(replies: seq<Reply>)

  const CMD_SRST := 0
  const CMD_ROTF := 1
  const CMD_WOTF := 2

  /** A whole frame, taken by a conforming target: its next phase, its device, its answer. */
  function Take(m: Machine, phase: Phase, dev: Device, sent: Sent): (Phase, Device, seq<bool>) {
    match sent
    case Command(bits) =>
      if |bits| != 5 || F.TargetCommand(bits).None? then (phase, dev, [false])
      else if F.TargetCommand(bits).value == CMD_ROTF then (Head(true, []), dev, [true])
      else if F.TargetCommand(bits).value == CMD_WOTF then (Head(false, []), dev, [true])
      else (Idle, dev, [true])
    case Data(bits) =>
      if |bits| != 10 || F.TargetByte(bits).None? then (phase, dev, [false])
      else TakeByte(m, phase, dev, F.TargetByte(bits).value)
    case Ack(ack) =>
      if !phase.Reading? then (phase, dev, [])
      else if !ack then (phase, dev, F.DataBits(phase.last))
      else if phase.left == 0 then (Idle, dev, [])
      else
        var (b, e) := m.read(dev, phase.address);
        (Reading(At(phase.address + 1), phase.left - 1, b), e, F.DataBits(b))
  }

  /** The address in the three bytes after the count. */
  function HeadAddress(got: seq<Byte>, v: Byte): Address
    requires |got| == 3
  {
    got[1] * 0x1_0000 + got[2] * 0x100 + v
  }

  /** A byte frame: ACK, and after the last address byte of a read the first data frame. */
  function TakeByte(m: Machine, phase: Phase, dev: Device, v: Byte): (Phase, Device, seq<bool>) {
    match phase
    case Head(read, got) =>
      if |got| != 3 then (Head(read, got + [v]), dev, [true])
      else
        var address := HeadAddress(got, v);
        if got[0] == 0 then (Idle, dev, [true])
        else if !read then (Writing(address, got[0] as int), dev, [true])
        else
          var (b, e) := m.read(dev, address);
          (Reading(At(address + 1), got[0] - 1, b), e, F.AckDataBits(b))
    case Writing(address, left) =>
      (if left <= 1 then Idle else Writing(At(address + 1), left - 1), m.write(dev, address, v), [true])
    case _ => (phase, dev, [false])
  }

  function Answer(fault: Fault, bits: seq<bool>): (reply: Reply)
    ensures bits == [false] && reply.Heard? ==> reply == Heard([false])
  {
    if bits == [] then Silence
    else
      match fault
      case Unheard => Silence
      case Flipped(flips) =>
        if |flips| == |bits| && F.Odd(flips) && bits != [false] then Heard(XorBits(bits, flips)) else Heard(bits)
      case _ => Heard(bits)
  }

  /** One exchange on the line. */
  function Exchange(m: Machine, t: Target, sent: Sent): (Target, Reply) {
    match t
    case Wild(replies) =>
      if replies == [] then (t, Silence) else (Wild(replies[1..]), replies[0])
    case Conforming(phase, dev, faults) =>
      var fault := if faults == [] then Clean else faults[0];
      var rest := if faults == [] then [] else faults[1..];
      match fault
      case Lost => (Conforming(phase, dev, rest), Silence)
      case Refused => (Conforming(phase, dev, rest), if sent.Ack? then Silence else Heard([false]))
      case _ =>
        var (p, d, bits) := Take(m, phase, dev, sent);
        (Conforming(p, d, rest), Answer(fault, bits))
  }

  /** A communication reset returns a conforming target to the start of a transaction. */
  function Reset(t: Target): Target {
    match t
    case Wild(_) => t
    case Conforming(_, dev, faults) => Conforming(Idle, dev, faults)
  }
}
