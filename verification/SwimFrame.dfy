/**
SWIM frames: the parity bit, the host's frames, and what the PHY makes of a received
word, including its second attempt with the bits reversed. A frame's bits are listed
least significant first: parity, eight data bits, header, and for the first frame of a
read the target's ACK on top.
*/
module SwimFrame {
  import opened BitVectors
  import opened Wrappers

  function Ones(bits: seq<bool>): nat
    decreases |bits|
  {
    if bits == [] then 0 else (if bits[0] then 1 else 0) + Ones(bits[1..])
  }

  predicate Odd(bits: seq<bool>) {
    Ones(bits) % 2 == 1
  }

  lemma {:induction false} OnesAppend(a: seq<bool>, b: seq<bool>)
    ensures Ones(a + b) == Ones(a) + Ones(b)
    decreases |a|
  {
    if a == [] {
      assert a + b == b;
    } else {
      assert (a + b)[1..] == a[1..] + b;
      OnesAppend(a[1..], b);
    }
  }

  /** Flipping an odd number of bits flips the parity. */
  lemma {:induction false} OddXor(a: seq<bool>, b: seq<bool>)
    requires |a| == |b|
    ensures Odd(XorBits(a, b)) == (Odd(a) != Odd(b))
    decreases |a|
  {
    if a != [] {
      assert XorBits(a, b)[1..] == XorBits(a[1..], b[1..]);
      OddXor(a[1..], b[1..]);
    }
  }

  function Reverse(bits: seq<bool>): (r: seq<bool>)
    ensures |r| == |bits|
    decreases |bits|
  {
    if bits == [] then [] else Reverse(bits[1..]) + [bits[0]]
  }

  lemma {:induction false} OnesReverse(bits: seq<bool>)
    ensures Ones(Reverse(bits)) == Ones(bits)
    decreases |bits|
  {
    if bits != [] {
      OnesReverse(bits[1..]);
      OnesAppend(Reverse(bits[1..]), [bits[0]]);
      assert Ones([bits[0]]) == if bits[0] then 1 else 0;
    }
  }

  // ----- parity -----

  /** v ^= v >> k on eight bits. */
  function XorShift(bits: seq<bool>, k: nat): (r: seq<bool>)
    requires |bits| == 8
    ensures |r| == 8
  {
    seq(8, i requires 0 <= i < 8 => bits[i] != (i + k < 8 && bits[i + k]))
  }

  /** swim_parity8 on the bits of a byte: three folds and the lowest bit. */
  predicate Parity8(bits: seq<bool>)
    requires |bits| == 8
  {
    XorShift(XorShift(XorShift(bits, 4), 2), 1)[0]
  }

  lemma OnesOfFour(b: seq<bool>)
    requires |b| == 4
    ensures Odd(b) == (((b[0] != b[1]) != b[2]) != b[3])
  {
    OnesOfTwo(b[0], b[1]);
    OnesOfTwo(b[2], b[3]);
    OnesAppend([b[0], b[1]], [b[2], b[3]]);
    assert b == [b[0], b[1]] + [b[2], b[3]];
  }

  lemma OnesOfTwo(x: bool, y: bool)
    ensures Ones([x, y]) == (if x then 1 else 0) + (if y then 1 else 0)
  {
    assert [x, y][1..] == [y] && [y][1..] == [];
    assert Ones([y]) == if y then 1 else 0;
  }

  /** The folds compute the parity: whether the byte has an odd number of ones. */
  lemma ParityIsOdd(bits: seq<bool>)
    requires |bits| == 8
    ensures Parity8(bits) == Odd(bits)
  {
    OnesOfFour(bits[..4]);
    OnesOfFour(bits[4..]);
    OnesAppend(bits[..4], bits[4..]);
    assert bits == bits[..4] + bits[4..];
    var a := XorShift(bits, 4);
    var b := XorShift(a, 2);
    assert a[0] == (bits[0] != bits[4]) && a[1] == (bits[1] != bits[5]);
    assert a[2] == (bits[2] != bits[6]) && a[3] == (bits[3] != bits[7]);
    assert b[0] == (a[0] != a[2]) && b[1] == (a[1] != a[3]);
  }

  predicate ParityOf(v: Byte) {
    Parity8(LowBits(v, 8))
  }

  // ----- target frames -----

  /** The ten bits of a target data frame. */
  function DataBits(v: Byte): (b: seq<bool>)
    ensures |b| == 10
  {
    [ParityOf(v)] + LowBits(v, 8) + [true]
  }

  /** The eleven bits of the target's ACK and the data frame right after it. */
  function AckDataBits(v: Byte): (b: seq<bool>)
    ensures |b| == 11
  {
    DataBits(v) + [true]
  }

  lemma FrameParity(v: Byte)
    ensures Odd(DataBits(v)) && !Odd(AckDataBits(v))
  {
    var d := LowBits(v, 8);
    ParityIsOdd(d);
    OnesAppend([ParityOf(v)] + d, [true]);
    OnesAppend([ParityOf(v)], d);
    OnesAppend(DataBits(v), [true]);
    assert Ones([true]) == 1;
    assert Ones([ParityOf(v)]) == if ParityOf(v) then 1 else 0;
  }

  // ----- what the PHY accepts -----

  /** decode_target_frame_raw on the ten bits of a word. */
  predicate DataAccepted(b: seq<bool>)
    requires |b| == 10
  {
    b[9] && b[0] == Parity8(b[1..9])
  }

  /** decode_ack_frame_raw on the eleven bits of a word. */
  predicate AckDataAccepted(b: seq<bool>)
    requires |b| == 11
  {
    b[10] && DataAccepted(b[..10])
  }

  /** What is accepted has the parity of a frame, so the count of ones decides. */
  lemma AcceptedParity(b: seq<bool>)
    requires |b| == 10
    ensures DataAccepted(b) <==> b[9] && Odd(b)
  {
    ParityIsOdd(b[1..9]);
    assert b == [b[0]] + b[1..9] + [b[9]];
    OnesAppend([b[0]] + b[1..9], [b[9]]);
    OnesAppend([b[0]], b[1..9]);
    assert Ones([b[9]]) == if b[9] then 1 else 0;
    assert Ones([b[0]]) == if b[0] then 1 else 0;
  }

  lemma AckAcceptedParity(b: seq<bool>)
    requires |b| == 11
    ensures AckDataAccepted(b) <==> b[10] && b[9] && !Odd(b)
  {
    AcceptedParity(b[..10]);
    assert b == b[..10] + [b[10]];
    OnesAppend(b[..10], [b[10]]);
    assert Ones([b[10]]) == if b[10] then 1 else 0;
  }

  /** A received word of `n` bits, as the frame of ten it is taken for: directly, or with
      its bits reversed. */
  function PhyFrame(b: seq<bool>): Option<seq<bool>>
    requires |b| == 10 || |b| == 11
  {
    if |b| == 11 then
      if AckDataAccepted(b) then Some(b[..10])
      else if AckDataAccepted(Reverse(b)) then Some(Reverse(b)[..10])
      else None
    else
      if DataAccepted(b) then Some(b)
      else if DataAccepted(Reverse(b)) then Some(Reverse(b))
      else None
  }

  /** decode_data_frame_no_ack: the link checks header and parity again. */
  function LinkByte(frame: seq<bool>): Option<Byte>
    requires |frame| == 10
  {
    if !frame[9] then None
    else if frame[0] != Parity8(frame[1..9]) then None
    else
      ValueBound(frame[1..9]);
      Pow2At32();
      Some(Value(frame[1..9]))
  }

  /** The link's second check never fails on what the PHY let through. */
  lemma RecheckPasses(b: seq<bool>)
    requires |b| == 10 || |b| == 11
    ensures PhyFrame(b).Some? ==> |PhyFrame(b).value| == 10 && LinkByte(PhyFrame(b).value).Some?
  {
  }

  function FrameBits(first: bool, v: Byte): (b: seq<bool>)
    ensures |b| == if first then 11 else 10
  {
    if first then AckDataBits(v) else DataBits(v)
  }

  /** Intact frames are read, as the byte that was sent. */
  lemma IntactRead(first: bool, v: Byte)
    ensures PhyFrame(FrameBits(first, v)) == Some(DataBits(v))
    ensures LinkByte(DataBits(v)) == Some(v)
  {
    assert DataBits(v)[1..9] == LowBits(v, 8);
    assert AckDataBits(v)[..10] == DataBits(v);
    Pow2At32();
    ValueOfLowBits(v, 8);
  }

  /** An intact frame that comes in reverse order is read as its byte, too, unless the straight
      order is accepted first. */
  lemma ReversedRead(first: bool, v: Byte)
    requires if first then !AckDataAccepted(Reverse(AckDataBits(v))) else !DataAccepted(Reverse(DataBits(v)))
    ensures PhyFrame(Reverse(FrameBits(first, v))) == Some(DataBits(v))
  {
    ReverseTwice(FrameBits(first, v));
    assert AckDataBits(v)[..10] == DataBits(v);
    assert DataBits(v)[1..9] == LowBits(v, 8);
  }

  /** Which it is exactly for a byte of odd parity, and after an ACK for an odd byte of odd parity. */
  lemma ReversedTaken(v: Byte)
    ensures DataAccepted(Reverse(DataBits(v))) <==> ParityOf(v)
    ensures AckDataAccepted(Reverse(AckDataBits(v))) <==> ParityOf(v) && v % 2 == 1
  {
    FrameParity(v);
    ReversedEnds(DataBits(v));
    ReversedEnds(AckDataBits(v));
    AcceptedParity(Reverse(DataBits(v)));
    AckAcceptedParity(Reverse(AckDataBits(v)));
    SecondBit(v, AckDataBits(v));
  }

  lemma SecondBit(v: Byte, bits: seq<bool>)
    requires bits == AckDataBits(v)
    ensures bits[1] == (v % 2 == 1)
  {
    assert LowBits(v, 8)[0] == (v % 2 == 1);
  }

  lemma {:induction false} ReversedEnds(bits: seq<bool>)
    requires |bits| >= 2
    ensures Reverse(bits)[|bits| - 1] == bits[0] && Reverse(bits)[|bits| - 2] == bits[1]
    ensures Odd(Reverse(bits)) == Odd(bits)
  {
    assert Reverse(bits) == Reverse(bits[1..]) + [bits[0]];
    assert Reverse(bits[1..]) == Reverse(bits[2..]) + [bits[1]];
    OnesReverse(bits);
  }

  lemma {:induction false} ReverseSnoc(bits: seq<bool>, b: bool)
    ensures Reverse(bits + [b]) == [b] + Reverse(bits)
    decreases |bits|
  {
    if bits == [] {
      assert [] + [b] == [b] && [b][1..] == [];
    } else {
      assert (bits + [b])[1..] == bits[1..] + [b];
      ReverseSnoc(bits[1..], b);
    }
  }

  lemma {:induction false} ReverseTwice(bits: seq<bool>)
    ensures Reverse(Reverse(bits)) == bits
    decreases |bits|
  {
    if bits != [] {
      ReverseTwice(bits[1..]);
      ReverseSnoc(Reverse(bits[1..]), bits[0]);
    }
  }

  /** With an odd number of bits flipped a frame is refused in both bit orders. */
  lemma OddFlipsRefused(first: bool, v: Byte, flips: seq<bool>)
    requires |flips| == (if first then 11 else 10) && Odd(flips)
    ensures PhyFrame(XorBits(FrameBits(first, v), flips)) == None
  {
    var b := XorBits(FrameBits(first, v), flips);
    FrameParity(v);
    OddXor(FrameBits(first, v), flips);
    OnesReverse(b);
    if first {
      AckAcceptedParity(b);
      AckAcceptedParity(Reverse(b));
    } else {
      AcceptedParity(b);
      AcceptedParity(Reverse(b));
    }
  }

  /** reverse_low_bits */
  method ReverseLowBits(value: nat, count: nat) returns (out: nat)
    ensures out < Pow2(count) && LowBits(out, count) == Reverse(LowBits(value, count))
  {
    out := 0;
    var rest := value;
    for i := 0 to count
      invariant out < Pow2(i)
      invariant Reverse(LowBits(value, count)) == Reverse(LowBits(rest, count - i)) + LowBits(out, i)
    {
      assert LowBits(rest, count - i)[1..] == LowBits(rest / 2, count - i - 1);
      PushBit(out, rest % 2 == 1, i);
      out := out * 2 + rest % 2;
      rest := rest / 2;
    }
  }

  lemma PushBit(out: nat, b: bool, i: nat)
    requires out < Pow2(i)
    ensures out * 2 + (if b then 1 else 0) < Pow2(i + 1)
    ensures LowBits(out * 2 + (if b then 1 else 0), i + 1) == [b] + LowBits(out, i)
  {
  }

  // ----- the same on words -----

  /** decode_target_frame_raw */
  function FrameOfWord(raw: nat): Option<nat> {
    var frame := raw % 0x400;
    if ShiftRight(frame, 9) % 2 == 0 then None
    else if (frame % 2 == 1) != ParityOf(frame / 2 % 0x100) then None
    else Some(frame)
  }

  /** decode_ack_frame_raw */
  function AckFrameOfWord(raw: nat): Option<nat> {
    if ShiftRight(raw, 10) % 2 == 0 then None else FrameOfWord(raw)
  }

  lemma {:induction false} BitOfWord(w: nat, i: nat, n: nat)
    requires i < n
    ensures LowBits(w, n)[i] == (ShiftRight(w, i) % 2 == 1)
    decreases i
  {
    if i > 0 {
      BitOfWord(w / 2, i - 1, n - 1);
    }
  }

  lemma {:induction false} LowBitsPrefix(w: nat, m: nat, n: nat)
    requires m <= n
    ensures LowBits(w, n)[..m] == LowBits(w, m)
    decreases m
  {
    if m > 0 {
      LowBitsPrefix(w / 2, m - 1, n - 1);
    }
  }

  /** Masking keeps the low bits. */
  lemma {:induction false} LowBitsMasked(w: nat, m: nat, p: nat)
    requires p == Pow2(m)
    ensures LowBits(w % p, m) == LowBits(w, m)
  {
    var q, r := Parts(w, p);
    LowPart(w, q, r, m, p);
  }

  lemma Parts(w: nat, p: nat) returns (q: nat, r: nat)
    requires p > 0
    ensures q == w / p && r == w % p < p && w == q * p + r
  {
    q, r := w / p, w % p;
  }

  lemma {:induction false} LowPart(w: nat, q: nat, r: nat, m: nat, p: nat)
    requires p == Pow2(m) && r < p && w == q * p + r
    ensures LowBits(w, m) == LowBits(r, m)
  {
    var n: nat := 0;
    LowBitsSplit(q, r, m, n);
    assert LowBits(r, m) + LowBits(q, n) == LowBits(r, m);
  }

  /** Parity, data and header of a ten-bit word. */
  lemma {:induction false} TenBits(frame: nat, n: nat)
    requires n == 10
    ensures var b := LowBits(frame, n);
            && b[0] == (frame % 2 == 1) && b[1..9] == LowBits(frame / 2 % 0x100, 8)
            && b[9] == (ShiftRight(frame, 9) % 2 == 1)
  {
    BitOfWord(frame, 9, n);
    assert LowBits(frame, n)[1..9] == LowBits(frame / 2, n - 1)[..8];
    LowBitsPrefix(frame / 2, 8, n - 1);
    Pow2At32();
    LowBitsMasked(frame / 2, 8, 0x100);
  }

  /** The word is accepted exactly if its bits are, and what is returned has its ten bits. */
  lemma FrameOfWordIs(raw: nat, n: nat)
    requires n == 10
    ensures FrameOfWord(raw).Some? <==> DataAccepted(LowBits(raw, n))
    ensures FrameOfWord(raw).Some? ==> LowBits(FrameOfWord(raw).value, n) == LowBits(raw, n)
  {
    assert Pow2(8) == 0x100 && Pow2(n) == 0x400 by {
      Pow2At32();
      assert Pow2(n) == 4 * Pow2(8);
    }
    LowBitsMasked(raw, n, 0x400);
    TenBits(raw % 0x400, n);
  }

  lemma AckFrameOfWordIs(raw: nat, n: nat)
    requires n == 10
    ensures AckFrameOfWord(raw).Some? <==> AckDataAccepted(LowBits(raw, n + 1))
    ensures AckFrameOfWord(raw).Some? ==> LowBits(AckFrameOfWord(raw).value, n) == LowBits(raw, n + 1)[..10]
  {
    FrameOfWordIs(raw, n);
    BitOfWord(raw, n, n + 1);
    LowBitsPrefix(raw, n, n + 1);
  }

  function DecodeOfWord(raw: nat, first: bool): Option<nat> {
    if first then AckFrameOfWord(raw) else FrameOfWord(raw)
  }

  /** What the PHY makes of a word it has captured: at once, or with its bits reversed. */
  method DecodeWord(raw: nat, first: bool) returns (frame: Option<nat>)
    ensures var bits := PhyFrame(LowBits(raw, if first then 11 else 10));
            if bits.None? then frame == None else frame.Some? && LowBits(frame.value, 10) == bits.value
  {
    ghost var n := 10;
    FrameOfWordIs(raw, n);
    AckFrameOfWordIs(raw, n);
    frame := DecodeOfWord(raw, first);
    if frame.None? {
      var reversed := ReverseLowBits(raw, if first then 11 else 10);
      FrameOfWordIs(reversed, n);
      AckFrameOfWordIs(reversed, n);
      frame := DecodeOfWord(reversed, first);
    }
  }

  // ----- host frames -----

  /** A byte frame as the host sends it: header 0, data, parity. */
  function HostBits(v: Byte): (b: seq<bool>)
    ensures |b| == 10
  {
    [ParityOf(v)] + LowBits(v, 8) + [false]
  }

  /** What a conforming target reads from a byte frame. */
  function TargetByte(b: seq<bool>): Option<Byte>
    requires |b| == 10
  {
    if b[9] || b[0] != Parity8(b[1..9]) then None
    else
      ValueBound(b[1..9]);
      Pow2At32();
      Some(Value(b[1..9]))
  }

  lemma HostByteRead(v: Byte)
    ensures TargetByte(HostBits(v)) == Some(v)
  {
    assert HostBits(v)[1..9] == LowBits(v, 8);
    Pow2At32();
    ValueOfLowBits(v, 8);
  }

  /** A word made of a parity bit and a value of `n` bits, with a zero header on top. */
  lemma FrameWordBits(v: nat, parity: bool, n: nat)
    requires v < Pow2(n)
    ensures LowBits(2 * v + (if parity then 1 else 0), n + 2) == [parity] + LowBits(v, n) + [false]
  {
    LowBitsPush(v, parity, n + 1);
    LowBitsTop(v, n);
  }

  /** The word the link hands to the PHY has exactly those bits. */
  lemma HostWordBits(v: Byte)
    ensures LowBits(2 * v + (if ParityOf(v) then 1 else 0), 10) == HostBits(v)
  {
    Pow2At32();
    FrameWordBits(v, ParityOf(v), 8);
  }

  /** parity3 over a command, and its five-bit frame: header 0, command, parity. */
  predicate Parity3(command: nat) {
    (command % 2 + command / 2 % 2 + command / 4 % 2) % 2 == 1
  }

  function CommandBits(command: nat): (b: seq<bool>)
    ensures |b| == 5
  {
    [Parity3(command)] + LowBits(command, 3) + [false]
  }

  lemma CommandWordBits(command: nat)
    requires command < 8
    ensures LowBits(2 * command + (if Parity3(command) then 1 else 0), 5) == CommandBits(command)
  {
    assert Pow2(3) == 8;
    FrameWordBits(command, Parity3(command), 3);
  }

  function TargetCommand(b: seq<bool>): Option<nat>
    requires |b| == 5
  {
    if b[4] || b[0] != Odd(b[1..4]) then None else Some(Value(b[1..4]))
  }

  lemma CommandRead(command: nat)
    requires command < 8
    ensures TargetCommand(CommandBits(command)) == Some(command)
  {
    var n: nat := 3;
    assert CommandBits(command)[1..4] == LowBits(command, n);
    CommandValue(command, n);
    CommandParity(command, n);
  }

  lemma CommandParity(command: nat, n: nat)
    requires n == 3
    ensures Odd(LowBits(command, n)) == Parity3(command)
  {
    var d := LowBits(command, n);
    OnesOfFour(d + [false]);
    OnesAppend(d, [false]);
    assert Ones([false]) == 0;
    assert d[0] == (command % 2 == 1);
    assert d[1] == (command / 2 % 2 == 1) by {
      BitOfWord(command, 1, n);
    }
    assert d[2] == (command / 4 % 2 == 1) by {
      BitOfWord(command, 2, n);
      assert ShiftRight(command, 2) == ShiftRight(command / 2, 1) == command / 2 / 2 == command / 4;
    }
  }

  lemma CommandValue(command: nat, n: nat)
    requires command < 8 && n == 3
    ensures Value(LowBits(command, n)) == command
  {
    assert Pow2(n) == 8;
    ValueOfLowBits(command, n);
  }
}
