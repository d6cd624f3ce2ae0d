/**
Host frames: the segment list swim_phy.c builds for a word of SWIM bits.
*/
module TxFrame {
  import opened BitVectors
  import opened Waveform
  import opened RxDecode

  const TICKS_PER_CLOCK := 8
  const MAX_FRAME_SEGMENTS := 96

  datatype Speed = Low | High

  function GapClocks(speed: Speed): Word {
    if speed.High? then 10 else 22
  }

  function LowClocks(speed: Speed, bit: bool): Word {
    if bit then 2 else if speed.High? then 8 else 20
  }

  function HighClocks(speed: Speed, bit: bool): Word {
    if !bit then 2 else if speed.High? then 8 else 20
  }

  function LowSegment(speed: Speed, bit: bool): Segment {
    Segment(SEG_LOW, LowClocks(speed, bit) * TICKS_PER_CLOCK)
  }

  function HighSegment(speed: Speed, bit: bool): Segment {
    Segment(SEG_RELEASE, HighClocks(speed, bit) * TICKS_PER_CLOCK)
  }

  /** Every bit is a low and then a release, 22 SWIM clocks at low speed and 10 at high speed,
      of which the low of a one and the release of a zero take two; the gap before a frame
      lasts as long as a bit. */
  lemma BitLasts(speed: Speed, bit: bool)
    ensures var (low, high) := (LowSegment(speed, bit), HighSegment(speed, bit));
            && low.level == SEG_LOW && high.level == SEG_RELEASE
            && low.ticks + high.ticks == TICKS_PER_CLOCK * (if speed == Low then 22 else 10)
            && (if bit then low else high).ticks == TICKS_PER_CLOCK * 2
            && Lead(speed, true) == [Segment(SEG_RELEASE, low.ticks + high.ticks)]
  {
  }

  /** The leading inter-frame gap, which an immediate ACK bit goes without. */
  function Lead(speed: Speed, gap: bool): seq<Segment> {
    if gap then [Segment(SEG_RELEASE, GapClocks(speed) * TICKS_PER_CLOCK)] else []
  }

  /** The segments of a frame, bit by bit. */
  function FrameSegments(speed: Speed, gap: bool, bits: seq<bool>): (s: seq<Segment>)
    ensures |s| == |Lead(speed, gap)| + 2 * |bits|
  {
    if bits == [] then Lead(speed, gap)
    else
      var bit := bits[|bits| - 1];
      FrameSegments(speed, gap, bits[..|bits| - 1]) + [LowSegment(speed, bit), HighSegment(speed, bit)]
  }

  /** Bit `i` of a word. */
  predicate BitAt(word: Word, i: nat) {
    ShiftRight(word, i) % 2 == 1
  }

  /** The `count` low bits of a word, MSB first. */
  function BitsOf(word: Word, count: nat): (b: seq<bool>)
    ensures |b| == count
    ensures forall i :: 0 <= i < count ==> b[i] == BitAt(word, count - 1 - i)
  {
    seq(count, i requires 0 <= i < count => BitAt(word, count - 1 - i))
  }

  lemma FrameGrows(speed: Speed, gap: bool, bits: seq<bool>, i: nat)
    requires i < |bits|
    ensures FrameSegments(speed, gap, bits[..i + 1])
         == FrameSegments(speed, gap, bits[..i]) + [LowSegment(speed, bits[i]), HighSegment(speed, bits[i])]
  {
    assert bits[..i + 1][..i] == bits[..i];
  }

  method AppendTwo(segs: array<Segment>, n: nat, low: Segment, high: Segment)
    requires n + 2 <= segs.Length
    modifies segs
    ensures segs[..n + 2] == old(segs[..n]) + [low, high]
  {
    segs[n] := low;
    segs[n + 1] := high;
  }

  /** Bit `i` of the frame, from the top of the word. */
  method AppendBit(segs: array<Segment>, n: nat, speed: Speed, word: Word, count: nat, i: nat, ghost gap: bool,
      ghost bits: seq<bool>)
    requires n + 2 <= segs.Length && i < count && bits == BitsOf(word, count)
    requires segs[..n] == FrameSegments(speed, gap, bits[..i])
    modifies segs
    ensures segs[..n + 2] == FrameSegments(speed, gap, bits[..i + 1])
  {
    var bit := BitAt(word, count - 1 - i);
    FrameGrows(speed, gap, bits, i);
    AppendTwo(segs, n, LowSegment(speed, bit), HighSegment(speed, bit));
  }

  method BeginFrame(segs: array<Segment>, speed: Speed, gap: bool) returns (n: nat)
    requires segs.Length == MAX_FRAME_SEGMENTS
    modifies segs
    ensures n == |Lead(speed, gap)| && segs[..n] == Lead(speed, gap)
  {
    n := 0;
    if gap {
      segs[n] := Segment(SEG_RELEASE, GapClocks(speed) * TICKS_PER_CLOCK);
      n := n + 1;
    }
  }

  /** The loop over the bits. */
  method AppendBits(segs: array<Segment>, begin: nat, speed: Speed, word: Word, count: nat, ghost gap: bool,
      ghost bits: seq<bool>)
    returns (ok: bool, n: nat)
    requires segs.Length == MAX_FRAME_SEGMENTS && count <= 32 && bits == BitsOf(word, count)
    requires begin == |Lead(speed, gap)| && segs[..begin] == Lead(speed, gap)
    modifies segs
    ensures ok && n <= MAX_FRAME_SEGMENTS && segs[..n] == FrameSegments(speed, gap, bits)
  {
    n := begin;
    for i := 0 to count
      invariant n == begin + 2 * i
      invariant segs[..n] == FrameSegments(speed, gap, bits[..i])
    {
      if n + 2 > MAX_FRAME_SEGMENTS {
        return false, n;
      }
      AppendBit(segs, n, speed, word, count, i, gap, bits);
      n := n + 2;
    }
    assert bits[..count] == bits;
    return true, n;
  }

  method BuildTxFrameSegments(speed: Speed, word: Word, count: nat, gap: bool, segs: array<Segment>)
    returns (ok: bool, n: nat)
    requires segs.Length == MAX_FRAME_SEGMENTS
    modifies segs
    ensures ok <==> 1 <= count <= 32
    ensures ok ==> n <= MAX_FRAME_SEGMENTS && segs[..n] == FrameSegments(speed, gap, BitsOf(word, count))
  {
    if count == 0 || count > 32 {
      return false, 0;
    }
    n := BeginFrame(segs, speed, gap);
    ok, n := AppendBits(segs, n, speed, word, count, gap, BitsOf(word, count));
  }

  /** The bits of a word that fits `count` bits are the word again. */
  lemma {:induction false} PackOfBits(word: Word, count: nat)
    requires word < Pow2(count)
    ensures Pack(BitsOf(word, count)) == word
    decreases count
  {
    if count > 0 {
      PackOfBits(word / 2, count - 1);
      assert BitsOf(word, count)[..count - 1] == BitsOf(word / 2, count - 1);
    }
  }
}
