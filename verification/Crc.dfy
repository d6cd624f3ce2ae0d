/**
The reflected CRC-32 of the USB frames and what it detects. The polynomial is that of
IEEE 802.3, section 3.2.9. The theory is over registers of 32 bits, least significant
first, fed one wire bit at a time (the least significant bit of each byte first).
*/
module Crc {
  import opened BitVectors

  const POLY := 0xEDB8_8320

  type Register = r: seq<bool> | |r| == 32 witness seq(32, _ => false)

  function Zero(): Register {
    seq(32, _ => false)
  }

  function Poly(): Register {
    LowBits(POLY, |Zero()|)
  }

  function Ones(): Register {
    seq(32, _ => true)
  }

  function Xor(a: Register, b: Register): Register {
    XorBits(a, b)
  }

  /** One wire bit through the register. */
  function Step(r: Register, b: bool): Register {
    var down := r[1..] + [false];
    if r[0] != b then Xor(down, Poly()) else down
  }

  function Feed(r: Register, bits: seq<bool>): Register
    decreases |bits|
  {
    if bits == [] then r else Feed(Step(r, bits[0]), bits[1..])
  }

  lemma {:induction false} FeedAppend(r: Register, a: seq<bool>, b: seq<bool>)
    ensures Feed(r, a + b) == Feed(Feed(r, a), b)
    decreases |a|
  {
    if a == [] {
      assert a + b == b;
    } else {
      assert (a + b)[1..] == a[1..] + b;
      FeedAppend(Step(r, a[0]), a[1..], b);
    }
  }

  // ----- the register is linear, and every step can be undone -----

  lemma StepXor(a: Register, b: Register, x: bool, y: bool)
    ensures Step(Xor(a, b), x != y) == Xor(Step(a, x), Step(b, y))
  {
    assert Step(Xor(a, b), x != y) == Xor(Step(a, x), Step(b, y));
  }

  lemma {:induction false} FeedXor(a: Register, b: Register, x: seq<bool>, y: seq<bool>)
    requires |x| == |y|
    ensures Feed(Xor(a, b), XorBits(x, y)) == Xor(Feed(a, x), Feed(b, y))
    decreases |x|
  {
    if x != [] {
      StepXor(a, b, x[0], y[0]);
      assert XorBits(x, y)[1..] == XorBits(x[1..], y[1..]);
      FeedXor(Step(a, x[0]), Step(b, y[0]), x[1..], y[1..]);
    }
  }

  /** The polynomial's top bit is set, so the top bit after a step says whether the
      polynomial went in. */
  lemma PolyTop()
    ensures Poly()[31]
  {
    Pow2At32();
    TopBit(POLY, 31);
  }

  lemma {:induction false} TopBit(w: nat, n: nat)
    requires w < Pow2(n + 1)
    ensures LowBits(w, n + 1)[n] == (w >= Pow2(n))
    decreases n
  {
    var half := w / 2;
    assert LowBits(w, n + 1) == [w % 2 == 1] + LowBits(half, n);
    if n > 0 {
      HalfAgainst(w, half, Pow2(n));
      HalfAgainst(w, half, Pow2(n - 1));
      TopBit(half, n - 1);
    }
  }

  lemma HalfAgainst(w: nat, half: nat, p: nat)
    requires half == w / 2
    ensures half < p <==> w < 2 * p
  {
  }

  lemma StepTop(r: Register, b: bool)
    ensures Step(r, b)[31] == (r[0] != b)
  {
    PolyTop();
  }

  lemma StepInjective(a: Register, b: Register, x: bool)
    requires Step(a, x) == Step(b, x)
    ensures a == b
  {
    StepTop(a, x);
    StepTop(b, x);
    forall i | 1 <= i < 32
      ensures a[i] == b[i]
    {
      assert Step(a, x)[i - 1] == Step(b, x)[i - 1];
    }
  }

  /** The register after some bits, and the bits, determine the register before them. */
  lemma {:induction false} FeedInjective(a: Register, b: Register, bits: seq<bool>)
    requires Feed(a, bits) == Feed(b, bits)
    ensures a == b
    decreases |bits|
  {
    if bits != [] {
      FeedInjective(Step(a, bits[0]), Step(b, bits[0]), bits[1..]);
      StepInjective(a, b, bits[0]);
    }
  }

  // ----- bits back from the register -----

  /** At most 32 bits as a register: the first bit lowest, zeros above. */
  function Pad(bits: seq<bool>): Register
    requires |bits| <= 32
  {
    bits + seq(32 - |bits|, _ => false)
  }

  /** A step ends in a short register only if the polynomial stayed out. */
  lemma UndoShort(r: Register, b: bool, rest: seq<bool>)
    requires |rest| < 32 && Step(r, b) == Pad(rest)
    ensures r == Pad([b] + rest)
  {
    StepTop(r, b);
    assert r[0] == b;
    forall i | 1 <= i < 32
      ensures r[i] == Pad([b] + rest)[i]
    {
      assert Step(r, b)[i - 1] == Pad(rest)[i - 1];
    }
  }

  /** Up to 32 bits that leave the register empty were the register. */
  lemma {:induction false} ClearedMeansEqual(r: Register, bits: seq<bool>)
    requires |bits| <= 32 && Feed(r, bits) == Zero()
    ensures r == Pad(bits)
    decreases |bits|
  {
    if bits != [] {
      ClearedMeansEqual(Step(r, bits[0]), bits[1..]);
      UndoShort(r, bits[0], bits[1..]);
      assert [bits[0]] + bits[1..] == bits;
    }
  }

  /** And feeding the register its own bits empties it. */
  lemma {:induction false} OwnBitsClear(bits: seq<bool>)
    requires |bits| <= 32
    ensures Feed(Pad(bits), bits) == Zero()
    decreases |bits|
  {
    if bits != [] {
      assert Step(Pad(bits), bits[0]) == Pad(bits[1..]);
      OwnBitsClear(bits[1..]);
    }
  }

  /** Two bit strings of equal length, at most 32, that lead from one register to one
      register are equal: 32 fed bits can be recovered from the states around them. */
  lemma {:induction false} WindowRecovered(r: Register, x: seq<bool>, y: seq<bool>)
    requires |x| == |y| <= 32 && Feed(r, x) == Feed(r, y)
    ensures x == y
  {
    FeedXor(r, r, x, y);
    assert Xor(r, r) == Zero();
    assert Xor(Feed(r, x), Feed(r, y)) == Zero();
    ClearedMeansEqual(Zero(), XorBits(x, y));
    forall i | 0 <= i < |x|
      ensures x[i] == y[i]
    {
      assert Pad(XorBits(x, y))[i] == Zero()[i];
    }
  }

  /** The register after any message followed by the complement of its own register. */
  function Residue(): Register {
    Feed(Zero(), Ones())
  }

  lemma {:induction false} OwnCrcLeavesResidue(r: Register)
    ensures Feed(r, Xor(r, Ones())) == Residue()
  {
    XorZero(r);
    OwnBitsClear(r);
    FeedXor(r, Zero(), r, Ones());
    XorZero(Feed(Zero(), Ones()));
  }

  lemma XorZero(r: Register)
    ensures Xor(r, Zero()) == r && Xor(Zero(), r) == r && Pad(r) == r
  {
  }
}

/**
Registers as 32-bit vectors, on which a run of steps can be computed.
*/
module CrcVectors {
  import opened BitVectors
  import opened Crc

  /** Words of some kind: whether one is odd, its half, the exclusive or of two. */
  datatype View<!T> = View(odd: T -> bool, half: T -> T, xor: (T, T) -> T)

  /** The `n` low bits of a word, least significant first, and their value. */
  function Bits<T>(m: View<T>, v: T, n: nat): (b: seq<bool>)
    ensures |b| == n
  {
    if n == 0 then [] else [m.odd(v)] + Bits(m, m.half(v), n - 1)
  }

  function Amount<T>(m: View<T>, v: T, n: nat): nat {
    if n == 0 then 0 else (if m.odd(v) then 1 else 0) + 2 * Amount(m, m.half(v), n - 1)
  }

  lemma {:induction false} ValueOfBits<T>(m: View<T>, v: T, n: nat)
    ensures Value(Bits(m, v, n)) == Amount(m, v, n)
    decreases n
  {
    if n > 0 {
      ValueOfBits(m, m.half(v), n - 1);
      assert Bits(m, v, n)[1..] == Bits(m, m.half(v), n - 1);
    }
  }

  lemma Halved<T>(m: View<T>, v: T, w: T, n: nat)
    requires w == m.half(v)
    ensures Amount(m, v, n + 1) == (if m.odd(v) then 1 else 0) + 2 * Amount(m, w, n)
  {
  }

  /** One more hexadecimal digit: `v`, halved four times. */
  lemma {:induction false} Digit<T>(m: View<T>, v: T, w: T, x: T, y: T, z: T, n: nat, high: nat)
    requires w == m.half(v) && x == m.half(w) && y == m.half(x) && z == m.half(y) && high == Amount(m, z, n)
    ensures Amount(m, v, n + 4) == 16 * high + (if m.odd(v) then 1 else 0) + (if m.odd(w) then 2 else 0)
                                             + (if m.odd(x) then 4 else 0) + (if m.odd(y) then 8 else 0)
  {
    Halved(m, v, w, n + 3);
    Halved(m, w, x, n + 2);
    Halved(m, x, y, n + 1);
    Halved(m, y, z, n);
  }

  ghost predicate Bitwise<T(!new)>(m: View<T>) {
    forall v: T, w: T ::
      m.half(m.xor(v, w)) == m.xor(m.half(v), m.half(w)) && m.odd(m.xor(v, w)) == (m.odd(v) != m.odd(w))
  }

  lemma {:induction false} BitsXor<T(!new)>(m: View<T>, v: T, w: T, n: nat)
    requires Bitwise(m)
    ensures Bits(m, m.xor(v, w), n) == XorBits(Bits(m, v, n), Bits(m, w, n))
    decreases n
  {
    if n > 0 {
      BitsXor(m, m.half(v), m.half(w), n - 1);
      assert m.half(m.xor(v, w)) == m.xor(m.half(v), m.half(w));
      XorBitsPush(m.odd(v), Bits(m, m.half(v), n - 1), m.odd(w), Bits(m, m.half(w), n - 1));
    }
  }

  predicate BitAt<T>(m: View<T>, v: T, i: nat)
    decreases i
  {
    if i == 0 then m.odd(v) else BitAt(m, m.half(v), i - 1)
  }

  lemma {:induction false} BitsLast<T>(m: View<T>, v: T, n: nat)
    ensures Bits(m, v, n + 1) == Bits(m, v, n) + [BitAt(m, v, n)]
    decreases n
  {
    if n > 0 {
      BitsLast(m, m.half(v), n - 1);
    }
  }

  /** Nothing is left after `n` halvings. */
  predicate Gone<T(==)>(m: View<T>, v: T, zero: T, n: nat)
    decreases n
  {
    if n == 0 then v == zero else Gone(m, m.half(v), zero, n - 1)
  }

  lemma GoneNext<T>(m: View<T>, v: T, w: T, zero: T, n: nat)
    requires w == m.half(v)
    ensures Gone(m, v, zero, n + 1) == Gone(m, w, zero, n)
  {
  }

  lemma GoneFour<T>(m: View<T>, v: T, w: T, x: T, y: T, z: T, zero: T, n: nat)
    requires w == m.half(v) && x == m.half(w) && y == m.half(x) && z == m.half(y)
    ensures Gone(m, v, zero, n + 4) == Gone(m, z, zero, n)
  {
    GoneNext(m, v, w, zero, n + 3);
    GoneNext(m, w, x, zero, n + 2);
    GoneNext(m, x, y, zero, n + 1);
    GoneNext(m, y, z, zero, n);
  }

  /** Halving keeps the order, and nothing odd is as small as zero. */
  ghost predicate Ordered<T(!new)>(m: View<T>, below: (T, T) -> bool, zero: T) {
    && (forall a: T, b: T :: below(a, b) ==> below(m.half(a), m.half(b)))
    && (forall a: T :: below(a, zero) ==> !m.odd(a))
  }

  /** What is no larger than a word of `n` bits has no bit `n`. */
  lemma {:induction false} NoBit<T(!new)>(m: View<T>, below: (T, T) -> bool, v: T, top: T, zero: T, n: nat)
    requires Ordered(m, below, zero) && below(v, top) && Gone(m, top, zero, n)
    ensures !BitAt(m, v, n)
    decreases n
  {
    if n > 0 {
      NoBit(m, below, m.half(v), m.half(top), zero, n - 1);
    }
  }

  /** Nothing comes in at the top. */
  lemma HalfBits<T>(m: View<T>, v: T, n: nat)
    requires !BitAt(m, v, n + 1)
    ensures Bits(m, m.half(v), n + 1) == Bits(m, v, n + 1)[1..] + [false]
  {
    BitsLast(m, m.half(v), n);
  }

  // ----- registers as words -----

  function AsRegister<T>(m: View<T>, v: T): Register {
    Bits(m, v, |Zero()|)
  }

  /** The inner step of the C loop, on a word. */
  function Shift<T>(m: View<T>, poly: T, v: T): T {
    if m.odd(v) then m.xor(m.half(v), poly) else m.half(v)
  }

  /** Words of 32 bits, and the polynomial among them. */
  ghost predicate Wide<T(!new)>(m: View<T>, poly: T) {
    Bitwise(m) && AsRegister(m, poly) == Poly() && forall v: T :: !BitAt(m, v, |Zero()|)
  }

  lemma ShiftIsStep<T(!new)>(m: View<T>, poly: T, v: T)
    requires Wide(m, poly)
    ensures Step(AsRegister(m, v), false) == AsRegister(m, Shift(m, poly, v))
  {
    HalfBits(m, v, |Zero()| - 1);
    BitsXor(m, m.half(v), poly, |Zero()|);
  }

  function Times<T>(next: T -> T, v: T, n: nat): T
    decreases n
  {
    if n == 0 then v else Times(next, next(v), n - 1)
  }

  lemma TimesNext<T>(next: T -> T, v: T, w: T, n: nat)
    requires w == next(v)
    ensures Times(next, v, n + 1) == Times(next, w, n)
  {
  }

  lemma TimesFour<T>(next: T -> T, v: T, w: T, x: T, y: T, z: T, n: nat)
    requires w == next(v) && x == next(w) && y == next(x) && z == next(y)
    ensures Times(next, v, n + 4) == Times(next, z, n)
  {
    TimesNext(next, v, w, n + 3);
    TimesNext(next, w, x, n + 2);
    TimesNext(next, x, y, n + 1);
    TimesNext(next, y, z, n);
  }

  lemma FeedNext(r: Register, next: Register, last: Register, n: nat)
    requires next == Step(r, false) && last == Feed(next, seq(n, _ => false))
    ensures last == Feed(r, seq(n + 1, _ => false))
  {
    assert seq(n + 1, _ => false)[1..] == seq(n, _ => false);
  }

  /** Zeros fed to a register are steps of whatever stands for it. */
  lemma {:induction false} FeedZeros<T(!new)>(register: T -> Register, next: T -> T, v: T, n: nat)
    requires forall w: T :: Step(register(w), false) == register(next(w))
    ensures Feed(register(v), seq(n, _ => false)) == register(Times(next, v, n))
    decreases n
  {
    if n > 0 {
      FeedZeros(register, next, next(v), n - 1);
      FeedNext(register(v), register(next(v)), register(Times(next, next(v), n - 1)), n - 1);
    }
  }

  /** The steps of words, as a function of its own. */
  ghost predicate Steps<T(!new)>(m: View<T>, poly: T, next: T -> T) {
    forall v: T :: next(v) == Shift(m, poly, v)
  }

  /** The register a word of ones ends in after `n` zeros, complemented. */
  lemma {:induction false} OnesFedTo<T(!new)>(m: View<T>, poly: T, next: T -> T, ones: T, last: T, n: nat)
    requires Wide(m, poly) && Steps(m, poly, next) && AsRegister(m, ones) == Crc.Ones() && last == Times(next, ones, n)
    ensures Value(Xor(Feed(Crc.Ones(), seq(n, _ => false)), Crc.Ones())) == Amount(m, m.xor(last, ones), |Zero()|)
  {
    var register := (v: T) => AsRegister(m, v);
    forall v: T ensures Step(register(v), false) == register(next(v)) {
      ShiftIsStep(m, poly, v);
    }
    FeedZeros(register, next, ones, n);
    BitsXor(m, last, ones, |Zero()|);
    ValueOfBits(m, m.xor(last, ones), |Zero()|);
  }

  // ----- vectors of 32 bits -----

  const POLY_VECTOR: bv32 := 0xEDB8_8320

  const SHIFT := (v: bv32) => Shift(VECTOR, POLY_VECTOR, v)

  const VECTOR := View((v: bv32) => v & 1 == 1, (v: bv32) => v >> 1, (v: bv32, w: bv32) => v ^ w)

  const BELOW := (v: bv32, w: bv32) => v <= w

  lemma VectorsOrdered(v: bv32)
    ensures Ordered(VECTOR, BELOW, 0) && BELOW(v, 0xFFFF_FFFF)
  {
  }

  lemma VectorsStep()
    ensures Steps(VECTOR, POLY_VECTOR, SHIFT)
  {
  }

  lemma VectorsBitwise()
    ensures Bitwise(VECTOR)
  {
  }

  lemma AmountOfPoly()
    ensures Amount(VECTOR, 0xEDB8_8320, 32) == POLY
  {
    Digit(VECTOR, 0xE, 0x7, 0x3, 1, 0, 0, 0);
    Digit(VECTOR, 0xED, 0x76, 0x3B, 0x1D, 0xE, 4, 0xE);
    Digit(VECTOR, 0xEDB, 0x76D, 0x3B6, 0x1DB, 0xED, 8, 0xED);
    Digit(VECTOR, 0xEDB8, 0x76DC, 0x3B6E, 0x1DB7, 0xEDB, 12, 0xEDB);
    Digit(VECTOR, 0xE_DB88, 0x7_6DC4, 0x3_B6E2, 0x1_DB71, 0xEDB8, 16, 0xEDB8);
    Digit(VECTOR, 0xED_B883, 0x76_DC41, 0x3B_6E20, 0x1D_B710, 0xE_DB88, 20, 0xE_DB88);
    Digit(VECTOR, 0xEDB_8832, 0x76D_C419, 0x3B6_E20C, 0x1DB_7106, 0xED_B883, 24, 0xED_B883);
    Digit(VECTOR, 0xEDB8_8320, 0x76DC_4190, 0x3B6E_20C8, 0x1DB7_1064, 0xEDB_8832, 28, 0xEDB_8832);
  }

  lemma AmountOfOnes()
    ensures Amount(VECTOR, 0xFFFF_FFFF, 32) == 0xFFFF_FFFF
  {
    Digit(VECTOR, 0xF, 0x7, 0x3, 1, 0, 0, 0);
    Digit(VECTOR, 0xFF, 0x7F, 0x3F, 0x1F, 0xF, 4, 0xF);
    Digit(VECTOR, 0xFFF, 0x7FF, 0x3FF, 0x1FF, 0xFF, 8, 0xFF);
    Digit(VECTOR, 0xFFFF, 0x7FFF, 0x3FFF, 0x1FFF, 0xFFF, 12, 0xFFF);
    Digit(VECTOR, 0xF_FFFF, 0x7_FFFF, 0x3_FFFF, 0x1_FFFF, 0xFFFF, 16, 0xFFFF);
    Digit(VECTOR, 0xFF_FFFF, 0x7F_FFFF, 0x3F_FFFF, 0x1F_FFFF, 0xF_FFFF, 20, 0xF_FFFF);
    Digit(VECTOR, 0xFFF_FFFF, 0x7FF_FFFF, 0x3FF_FFFF, 0x1FF_FFFF, 0xFF_FFFF, 24, 0xFF_FFFF);
    Digit(VECTOR, 0xFFFF_FFFF, 0x7FFF_FFFF, 0x3FFF_FFFF, 0x1FFF_FFFF, 0xFFF_FFFF, 28, 0xFFF_FFFF);
  }

  lemma AmountOfFinal()
    ensures Amount(VECTOR, 0x2144_DF1C, 32) == 0x2144_DF1C
  {
    Digit(VECTOR, 0x2, 1, 0, 0, 0, 0, 0);
    Digit(VECTOR, 0x21, 0x10, 0x8, 0x4, 0x2, 4, 0x2);
    Digit(VECTOR, 0x214, 0x10A, 0x85, 0x42, 0x21, 8, 0x21);
    Digit(VECTOR, 0x2144, 0x10A2, 0x851, 0x428, 0x214, 12, 0x214);
    Digit(VECTOR, 0x2_144D, 0x1_0A26, 0x8513, 0x4289, 0x2144, 16, 0x2144);
    Digit(VECTOR, 0x21_44DF, 0x10_A26F, 0x8_5137, 0x4_289B, 0x2_144D, 20, 0x2_144D);
    Digit(VECTOR, 0x214_4DF1, 0x10A_26F8, 0x85_137C, 0x42_89BE, 0x21_44DF, 24, 0x21_44DF);
    Digit(VECTOR, 0x2144_DF1C, 0x10A2_6F8E, 0x851_37C7, 0x428_9BE3, 0x214_4DF1, 28, 0x214_4DF1);
  }

  lemma HighHalf()
    ensures Gone(VECTOR, 0xFFFF_FFFF, 0, 32) == Gone(VECTOR, 0xFFFF, 0, 16)
  {
    GoneFour(VECTOR, 0xFFFF_FFFF, 0x7FFF_FFFF, 0x3FFF_FFFF, 0x1FFF_FFFF, 0xFFF_FFFF, 0, 28);
    GoneFour(VECTOR, 0xFFF_FFFF, 0x7FF_FFFF, 0x3FF_FFFF, 0x1FF_FFFF, 0xFF_FFFF, 0, 24);
    GoneFour(VECTOR, 0xFF_FFFF, 0x7F_FFFF, 0x3F_FFFF, 0x1F_FFFF, 0xF_FFFF, 0, 20);
    GoneFour(VECTOR, 0xF_FFFF, 0x7_FFFF, 0x3_FFFF, 0x1_FFFF, 0xFFFF, 0, 16);
  }

  lemma LowHalf()
    ensures Gone(VECTOR, 0xFFFF, 0, 16)
  {
    GoneFour(VECTOR, 0xFFFF, 0x7FFF, 0x3FFF, 0x1FFF, 0xFFF, 0, 12);
    GoneFour(VECTOR, 0xFFF, 0x7FF, 0x3FF, 0x1FF, 0xFF, 0, 8);
    GoneFour(VECTOR, 0xFF, 0x7F, 0x3F, 0x1F, 0xF, 0, 4);
    GoneFour(VECTOR, 0xF, 0x7, 0x3, 1, 0, 0, 0);
  }

  lemma NoBit32(v: bv32, n: nat)
    requires n == 32
    ensures !BitAt(VECTOR, v, n)
  {
    HighHalf();
    LowHalf();
    VectorsOrdered(v);
    NoBit(VECTOR, BELOW, v, 0xFFFF_FFFF, 0, n);
  }

  lemma PolyBits()
    ensures AsRegister(VECTOR, POLY_VECTOR) == Poly()
  {
    AmountOfPoly();
    ValueOfBits(VECTOR, POLY_VECTOR, |Zero()|);
    LowBitsOfValue(AsRegister(VECTOR, POLY_VECTOR));
  }

  lemma VectorsWide()
    ensures Wide(VECTOR, POLY_VECTOR)
  {
    PolyBits();
    VectorsBitwise();
    forall v: bv32 ensures !BitAt(VECTOR, v, |Zero()|) {
      NoBit32(v, |Zero()|);
    }
  }

  lemma ByteOne()
    ensures Times(SHIFT, 0xFFFF_FFFF, 32) == Times(SHIFT, 0x2DFD_1072, 24)
  {
    TimesFour(SHIFT, 0xFFFF_FFFF, 0x9247_7CDF, 0xA49B_3D4F, 0xBFF5_1D87, 0xB242_0DE3, 28);
    TimesFour(SHIFT, 0xB242_0DE3, 0xB499_85D1, 0xB7F4_41C8, 0x5BFA_20E4, 0x2DFD_1072, 24);
  }

  lemma ByteTwo()
    ensures Times(SHIFT, 0x2DFD_1072, 24) == Times(SHIFT, 0xBE26_ED00, 16)
  {
    TimesFour(SHIFT, 0x2DFD_1072, 0x16FE_8839, 0xE6C7_C73C, 0x7363_E39E, 0x39B1_F1CF, 20);
    TimesFour(SHIFT, 0x39B1_F1CF, 0xF160_7BC7, 0x9508_BEC3, 0xA73C_DC41, 0xBE26_ED00, 16);
  }

  lemma ByteThree()
    ensures Times(SHIFT, 0xBE26_ED00, 16) == Times(SHIFT, 0xBE_26ED, 8)
  {
    TimesFour(SHIFT, 0xBE26_ED00, 0x5F13_7680, 0x2F89_BB40, 0x17C4_DDA0, 0xBE2_6ED0, 12);
    TimesFour(SHIFT, 0xBE2_6ED0, 0x5F1_3768, 0x2F8_9BB4, 0x17C_4DDA, 0xBE_26ED, 8);
  }

  lemma ByteFour()
    ensures Times(SHIFT, 0xBE_26ED, 8) == Times(SHIFT, 0xDEBB_20E3, 0)
  {
    TimesFour(SHIFT, 0xBE_26ED, 0xEDE7_9056, 0x76F3_C82B, 0xD6C1_6735, 0x86D8_30BA, 4);
    TimesFour(SHIFT, 0x86D8_30BA, 0x436C_185D, 0xCC0E_8F0E, 0x6607_4787, 0xDEBB_20E3, 0);
  }

  lemma OnesVector()
    ensures AsRegister(VECTOR, 0xFFFF_FFFF) == Crc.Ones()
  {
    AmountOfOnes();
    ValueOfBits(VECTOR, 0xFFFF_FFFF, |Zero()|);
    LowBitsOfValue(AsRegister(VECTOR, 0xFFFF_FFFF));
    OnesBits(|Zero()|);
    Pow2At32();
  }

  /** A register of ones after 32 zeros, complemented, is the number 0x2144DF1C. */
  lemma OnesFed(n: nat)
    requires n == 32
    ensures Value(Xor(Feed(Crc.Ones(), seq(n, _ => false)), Crc.Ones())) == 0x2144_DF1C
  {
    VectorsWide();
    OnesVector();
    ByteOne();
    ByteTwo();
    ByteThree();
    ByteFour();
    VectorsStep();
    OnesFedTo(VECTOR, POLY_VECTOR, SHIFT, 0xFFFF_FFFF, 0xDEBB_20E3, n);
    AmountOfFinal();
  }
}

/**
The CRC as usb_protocol.c computes it, over bytes, and the check a frame has to pass.
*/
module FrameCheck {
  import opened BitVectors
  import opened Crc
  import V = CrcVectors

  /** The bytes as they travel, least significant bit first. */
  function WireBits(data: seq<Byte>): (b: seq<bool>)
    ensures |b| == 8 * |data|
  {
    if data == [] then [] else WireBits(data[..|data| - 1]) + LowBits(data[|data| - 1], 8)
  }

  lemma {:induction false} WireBitsAppend(a: seq<Byte>, b: seq<Byte>)
    ensures WireBits(a + b) == WireBits(a) + WireBits(b)
    decreases |b|
  {
    if b == [] {
      assert a + b == a;
    } else {
      var (c, v) := (b[..|b| - 1], b[|b| - 1]);
      assert b == c + [v] && a + b == (a + c) + [v];
      WireBitsNext(a + c, v);
      WireBitsNext(c, v);
      WireBitsAppend(a, c);
    }
  }

  lemma WireBitsNext(a: seq<Byte>, v: Byte)
    ensures WireBits(a + [v]) == WireBits(a) + LowBits(v, 8)
  {
    assert (a + [v])[..|a|] == a;
  }

  lemma {:induction false} WireBitsAt(data: seq<Byte>, i: nat)
    requires i < |data|
    ensures WireBits(data)[8 * i..8 * i + 8] == LowBits(data[i], 8)
    decreases |data|
  {
    if i < |data| - 1 {
      WireBitsAt(data[..|data| - 1], i);
      assert WireBits(data)[8 * i..8 * i + 8] == WireBits(data[..|data| - 1])[8 * i..8 * i + 8];
    }
  }

  lemma WireBitsInjective(f: seq<Byte>, g: seq<Byte>)
    requires |f| == |g| && WireBits(f) == WireBits(g)
    ensures f == g
  {
    Pow2At32();
    forall i | 0 <= i < |f|
      ensures f[i] == g[i]
    {
      WireBitsAt(f, i);
      WireBitsAt(g, i);
      LowBitsInjective(f[i], g[i], 8);
    }
  }

  function State(data: seq<Byte>): Register {
    Feed(Crc.Ones(), WireBits(data))
  }

  /** The CRC of a message: the final register, complemented, as a number. */
  function Crc32(data: seq<Byte>): (c: nat) {
    Value(Xor(State(data), Crc.Ones()))
  }

  /** One iteration of the inner C loop. */
  function CStep(crc: Word): Word {
    XorNBits(crc / 2, if crc % 2 == 1 then POLY else 0, 32);
    Pow2At32();
    XorN(crc / 2, if crc % 2 == 1 then POLY else 0, 32)
  }

  function Bits32(w: Word): Register {
    LowBits(w, |Zero()|)
  }

  /** Down one place, and the polynomial when a one falls out. */
  lemma CStepIsStep(crc: Word)
    ensures Bits32(CStep(crc)) == Step(Bits32(crc), false)
  {
    Pow2At32();
    var tap := if crc % 2 == 1 then POLY else 0;
    XorNBits(crc / 2, tap, |Zero()|);
    LowBitsHalf(crc, |Zero()|);
    if crc % 2 == 0 {
      ZeroBits(|Zero()|);
    }
  }

  lemma {:induction false} ZeroBits(n: nat)
    ensures LowBits(0, n) == seq(n, _ => false)
    decreases n
  {
    if n > 0 {
      ZeroBits(n - 1);
    }
  }

  /** Folding in the rest of a byte first and stepping comes to feeding its next bit. */
  lemma StepsCommute(r: Register, rest: seq<bool>)
    requires 1 <= |rest| <= 32
    ensures Step(Xor(r, Pad(rest)), false) == Xor(Step(r, rest[0]), Pad(rest[1..]))
  {
    var x, down := Xor(r, Pad(rest)), r[1..] + [false];
    assert x[0] == (r[0] != rest[0]);
    assert x[1..] + [false] == Xor(down, Pad(rest[1..]));
    XorSwap(down, Pad(rest[1..]), Poly());
  }

  lemma XorSwap(a: Register, b: Register, c: Register)
    ensures Xor(Xor(a, b), c) == Xor(Xor(a, c), b)
  {
  }

  /** A whole byte folded in at once, then eight steps. */
  lemma ByteFolded(crc: Word, b: Byte)
    ensures XorN(crc, b, 32) < 0x1_0000_0000
    ensures Bits32(XorN(crc, b, 32)) == Xor(Bits32(crc), Pad(LowBits(b, 8)))
  {
    Pow2At32();
    XorNBits(crc, b, |Zero()|);
    LowBitsPad(b, 8, |Zero()|);
  }

  lemma WordBits(w: Word)
    ensures Value(Bits32(w)) == w
  {
    Pow2At32();
    ValueOfLowBits(w, |Zero()|);
  }

  /** rpsw_crc32 */
  method ComputeCrc(data: seq<Byte>) returns (crc: Word)
    ensures crc == Crc32(data)
  {
    crc := 0xFFFF_FFFF;
    AllOnes();
    for i := 0 to |data|
      invariant Bits32(crc) == State(data[..i])
    {
      ghost var before := State(data[..i]);
      ghost var bits := LowBits(data[i], 8);
      ByteFolded(crc, data[i]);
      crc := XorN(crc, data[i], 32);
      for bit := 0 to 8
        invariant Bits32(crc) == Xor(Feed(before, bits[..bit]), Pad(bits[bit..]))
      {
        CStepIsStep(crc);
        StepsCommute(Feed(before, bits[..bit]), bits[bit..]);
        FeedOne(before, bits, bit);
        crc := CStep(crc);
      }
      ByteDone(data, i, Bits32(crc));
    }
    assert data[..|data|] == data;
    Complement(crc);
    crc := XorN(crc, 0xFFFF_FFFF, 32);
  }

  lemma AllOnes()
    ensures Bits32(0xFFFF_FFFF) == Crc.Ones()
    ensures State([]) == Crc.Ones()
  {
    Pow2At32();
    OnesBits(|Zero()|);
  }

  lemma FeedOne(r: Register, bits: seq<bool>, k: nat)
    requires k < |bits|
    ensures Feed(r, bits[..k + 1]) == Step(Feed(r, bits[..k]), bits[k])
  {
    assert bits[..k + 1] == bits[..k] + [bits[k]];
    FeedAppend(r, bits[..k], [bits[k]]);
    assert Feed(Feed(r, bits[..k]), [bits[k]]) == Step(Feed(r, bits[..k]), bits[k]);
  }

  lemma ByteDone(data: seq<Byte>, i: nat, r: Register)
    requires i < |data|
    requires r == Xor(Feed(State(data[..i]), LowBits(data[i], 8)[..8]), Pad(LowBits(data[i], 8)[8..]))
    ensures r == State(data[..i + 1])
  {
    var bits := LowBits(data[i], 8);
    assert bits[..8] == bits && bits[8..] == [];
    assert Pad([]) == Zero();
    assert r == Feed(State(data[..i]), bits);
    assert data[..i + 1][..i] == data[..i];
    FeedAppend(Crc.Ones(), WireBits(data[..i]), bits);
  }

  lemma Complement(crc: Word)
    ensures XorN(crc, 0xFFFF_FFFF, 32) == Value(Xor(Bits32(crc), Crc.Ones()))
    ensures XorN(crc, 0xFFFF_FFFF, 32) < 0x1_0000_0000
  {
    Pow2At32();
    AllOnes();
    XorNBits(crc, 0xFFFF_FFFF, |Zero()|);
    WordBits(XorN(crc, 0xFFFF_FFFF, 32));
  }

  // ----- frames -----

  lemma CrcIsWord(data: seq<Byte>)
    ensures Crc32(data) < 0x1_0000_0000
  {
    ValueBound(Xor(State(data), Crc.Ones()));
    Pow2At32();
  }

  /** A little-endian field travels bit by bit, lowest first. */
  lemma {:induction false} WireBitsOfField(v: nat, n: nat)
    ensures WireBits(LeBytes(v, n)) == LowBits(v, 8 * n)
    decreases n
  {
    if n > 0 {
      WireBitsOfField(v / 256, n - 1);
      NextField(v, v / 256, v % 256, n - 1, LeBytes(v / 256, n - 1));
    }
  }

  lemma NextField(v: nat, q: nat, r: Byte, n: nat, rest: seq<Byte>)
    requires q == v / 256 && r == v % 256 && rest == LeBytes(q, n) && WireBits(rest) == LowBits(q, 8 * n)
    ensures WireBits(LeBytes(v, n + 1)) == LowBits(v, 8 * (n + 1))
  {
    ByteSplit(v, q, r, 8 * n, 8 * (n + 1));
    WireBitsPush(r, rest);
  }

  lemma WireBitsPush(r: Byte, rest: seq<Byte>)
    ensures WireBits([r] + rest) == LowBits(r, 8) + WireBits(rest)
  {
    WireBitsAppend([r], rest);
    WireBitsOfByte(r);
  }

  lemma {:induction false} ByteSplit(v: nat, q: nat, r: nat, k: nat, n: nat)
    requires q == v / 256 && r == v % 256 && n == k + 8
    ensures LowBits(v, n) == LowBits(r, 8) + LowBits(q, k)
  {
    Pow2At32();
    SplitAt(v, q, r, 8, 256, k);
  }

  lemma SplitAt(v: nat, q: nat, r: nat, m: nat, p: nat, k: nat)
    requires p == Pow2(m) && r < p && v == q * p + r
    ensures LowBits(v, m + k) == LowBits(r, m) + LowBits(q, k)
  {
    LowBitsSplit(q, r, m, k);
  }

  lemma WireBitsOfByte(r: Byte)
    ensures WireBits([r]) == LowBits(r, 8)
  {
    assert WireBits([r]) == WireBits([]) + LowBits(r, 8);
  }

  /** A frame carries its CRC as four little-endian bytes at the end. */
  function WithCrc(body: seq<Byte>): seq<Byte> {
    body + LeBytes(Crc32(body), 4)
  }

  predicate Passes(frame: seq<Byte>) {
    && |frame| >= 4
    && LeValue(frame[|frame| - 4..]) == Crc32(frame[..|frame| - 4])
  }

  lemma CrcBits(body: seq<Byte>)
    ensures Bits32(CrcWord(body)) == Xor(State(body), Crc.Ones())
  {
    LowBitsOfValue(Xor(State(body), Crc.Ones()));
  }

  function CrcWord(body: seq<Byte>): Word {
    CrcIsWord(body);
    Crc32(body)
  }

  lemma StateOfFrame(body: seq<Byte>, trailer: Word)
    ensures State(body + LeBytes(trailer, 4)) == Feed(State(body), Bits32(trailer))
  {
    WireBitsAppend(body, LeBytes(trailer, 4));
    WireBitsOfField(trailer, 4);
    FeedAppend(Crc.Ones(), WireBits(body), Bits32(trailer));
  }

  /** The register after a frame is the residue if and only if the frame passes. */
  lemma PassesIffResidue(body: seq<Byte>, trailer: Word)
    ensures trailer == CrcWord(body) <==> State(body + LeBytes(trailer, 4)) == Residue()
  {
    StateOfFrame(body, trailer);
    CrcBits(body);
    OwnCrcLeavesResidue(State(body));
    if Feed(State(body), Bits32(trailer)) == Residue() {
      WindowRecovered(State(body), Bits32(trailer), Bits32(CrcWord(body)));
      WordBits(trailer);
      WordBits(CrcWord(body));
    }
  }

  /** The CRC of any message followed by its own CRC is one and the same number. */
  lemma OwnCrcIsConstant(body: seq<Byte>)
    ensures Crc32(WithCrc(body)) == 0x2144_DF1C
  {
    PassesIffResidue(body, CrcWord(body));
    PassesIffResidue([], CrcWord([]));
    EmptyWithCrc(|LeBytes(0, 4)|);
  }

  lemma {:induction false} ZeroWire(k: nat)
    ensures WireBits(seq(k, _ => 0)) == seq(8 * k, _ => false)
    decreases k
  {
    if k > 0 {
      ZeroWire(k - 1);
      ZeroBits(8);
      assert seq(k, _ => 0)[..k - 1] == seq(k - 1, _ => 0);
    }
  }

  /** It is the CRC of four zero bytes, the empty message with its CRC. */
  lemma EmptyWithCrc(k: nat)
    requires k == 4
    ensures Crc32([] + LeBytes(CrcWord([]), k)) == 0x2144_DF1C
  {
    EmptyCrc();
    ZeroField(k);
    assert [] + seq(k, _ => 0) == seq(k, _ => 0);
    ZeroWire(k);
    V.OnesFed(8 * k);
  }

  lemma EmptyCrc()
    ensures Crc32([]) == 0
  {
    assert Xor(State([]), Crc.Ones()) == Zero();
    ZeroBits(|Zero()|);
    WordBits(0);
  }

  lemma {:induction false} ZeroField(n: nat)
    ensures LeBytes(0, n) == seq(n, _ => 0)
    decreases n
  {
    if n > 0 {
      ZeroField(n - 1);
    }
  }

  /** Frames that differ only inside the wire bits [p, p + 32). */
  ghost predicate DifferWithin(f: seq<Byte>, g: seq<Byte>, p: nat) {
    && |f| == |g|
    && forall i :: 0 <= i < 8 * |f| && !(p <= i < p + 32) ==> WireBits(f)[i] == WireBits(g)[i]
  }

  /** Burst detection: of two distinct frames of equal length, trailer included, that differ
      only inside 32 consecutive wire bits, at most one passes the check. */
  lemma BurstDetected(f: seq<Byte>, g: seq<Byte>, p: nat)
    requires Passes(f) && Passes(g) && DifferWithin(f, g, p)
    ensures f == g
  {
    PassingFrame(f);
    PassingFrame(g);
    var n := 8 * |f|;
    var q := if p + 32 <= n then p else n - 32;
    SameOutside(WireBits(f), WireBits(g), q);
    WireBitsInjective(f, g);
  }

  lemma PassingFrame(f: seq<Byte>)
    requires Passes(f)
    ensures State(f) == Residue()
  {
    var body, trailer := f[..|f| - 4], f[|f| - 4..];
    assert f == body + trailer;
    PassingParts(body, trailer, CrcWord(body));
  }

  lemma PassingParts(body: seq<Byte>, trailer: seq<Byte>, crc: Word)
    requires |trailer| == 4 && LeValue(trailer) == crc == CrcWord(body)
    ensures State(body + trailer) == Residue()
  {
    LeRoundTrip(trailer);
    PassesIffResidue(body, crc);
  }

  /** Bit strings with one final register that agree outside a window of 32 are equal. */
  lemma {:induction false} SameOutside(x: seq<bool>, y: seq<bool>, q: nat)
    requires |x| == |y| && q + 32 <= |x|
    requires Feed(Crc.Ones(), x) == Feed(Crc.Ones(), y)
    requires forall i :: 0 <= i < |x| && !(q <= i < q + 32) ==> x[i] == y[i]
    ensures x == y
  {
    var r := Feed(Crc.Ones(), x[..q]);
    var tail := x[q + 32..];
    assert x[..q] == y[..q] && tail == y[q + 32..];
    Split3(x, q);
    Split3(y, q);
    FeedInjective(Feed(r, x[q..q + 32]), Feed(r, y[q..q + 32]), tail);
    WindowRecovered(r, x[q..q + 32], y[q..q + 32]);
    assert x == x[..q] + x[q..q + 32] + tail;
    assert y == y[..q] + y[q..q + 32] + tail;
  }

  lemma {:induction false} Split3(x: seq<bool>, q: nat)
    requires q + 32 <= |x|
    ensures Feed(Crc.Ones(), x) == Feed(Feed(Feed(Crc.Ones(), x[..q]), x[q..q + 32]), x[q + 32..])
  {
    assert x == x[..q] + x[q..];
    FeedAppend(Crc.Ones(), x[..q], x[q..]);
    assert x[q..] == x[q..q + 32] + x[q + 32..];
    FeedAppend(Feed(Crc.Ones(), x[..q]), x[q..q + 32], x[q + 32..]);
  }
}
