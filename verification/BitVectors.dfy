/**
Bytes, words and their bits.
*/
module BitVectors {
  type Byte = b: int | 0 <= b < 256

  const U32 := 0x1_0000_0000

  type Word = w: int | 0 <= w < U32

  function Pow2(n: nat): (p: nat)
    ensures p >= 1
  {
    if n == 0 then 1 else 2 * Pow2(n - 1)
  }

  /** The `n` low bits of `w`, least significant first. */
  function LowBits(w: nat, n: nat): (b: seq<bool>)
    ensures |b| == n
  {
    if n == 0 then [] else [w % 2 == 1] + LowBits(w / 2, n - 1)
  }

  function ShiftRight(w: nat, i: nat): nat {
    if i == 0 then w else ShiftRight(w / 2, i - 1)
  }

  function Value(bits: seq<bool>): nat
    decreases |bits|
  {
    if bits == [] then 0 else (if bits[0] then 1 else 0) + 2 * Value(bits[1..])
  }

  lemma {:induction false} ValueBound(bits: seq<bool>)
    ensures Value(bits) < Pow2(|bits|)
    decreases |bits|
  {
    if bits != [] {
      ValueBound(bits[1..]);
    }
  }

  lemma {:induction false} ValueOfLowBits(w: nat, n: nat)
    requires w < Pow2(n)
    ensures Value(LowBits(w, n)) == w
    decreases n
  {
    if n > 0 {
      ValueOfLowBits(w / 2, n - 1);
      assert LowBits(w, n)[1..] == LowBits(w / 2, n - 1);
    }
  }

  lemma {:induction false} LowBitsOfValue(bits: seq<bool>)
    ensures LowBits(Value(bits), |bits|) == bits
    decreases |bits|
  {
    if bits != [] {
      LowBitsOfValue(bits[1..]);
    }
  }

  /** Equal bits, equal words. */
  lemma LowBitsInjective(v: nat, w: nat, n: nat)
    requires v < Pow2(n) && w < Pow2(n) && LowBits(v, n) == LowBits(w, n)
    ensures v == w
  {
    ValueOfLowBits(v, n);
    ValueOfLowBits(w, n);
  }

  /** Bitwise exclusive or of the `n` low bits. */
  function XorN(a: nat, b: nat, n: nat): nat {
    if n == 0 then 0 else (a % 2 + b % 2) % 2 + 2 * XorN(a / 2, b / 2, n - 1)
  }

  function XorBits(x: seq<bool>, y: seq<bool>): (z: seq<bool>)
    requires |x| == |y|
    ensures |z| == |x| && forall i :: 0 <= i < |z| ==> z[i] == (x[i] != y[i])
  {
    seq(|x|, i requires 0 <= i < |x| => x[i] != y[i])
  }

  /** A word with one more bit at the bottom. */
  lemma LowBitsPush(w: nat, b: bool, n: nat)
    ensures LowBits(2 * w + (if b then 1 else 0), n + 1) == [b] + LowBits(w, n)
  {
  }

  lemma XorBitsPush(a: bool, x: seq<bool>, b: bool, y: seq<bool>)
    requires |x| == |y|
    ensures XorBits([a] + x, [b] + y) == [a != b] + XorBits(x, y)
  {
  }

  lemma {:induction false} XorNBits(a: nat, b: nat, n: nat)
    ensures XorN(a, b, n) < Pow2(n)
    ensures LowBits(XorN(a, b, n), n) == XorBits(LowBits(a, n), LowBits(b, n))
    decreases n, 0
  {
    if n > 0 {
      XorNStep(a / 2, a % 2 == 1, b / 2, b % 2 == 1, n - 1);
    }
  }

  lemma XorNPush(a: nat, x: bool, b: nat, y: bool, n: nat)
    ensures XorN(2 * a + (if x then 1 else 0), 2 * b + (if y then 1 else 0), n + 1)
         == 2 * XorN(a, b, n) + (if x != y then 1 else 0)
  {
    PushedBit(a, x);
    PushedBit(b, y);
  }

  lemma PushedBit(w: nat, b: bool)
    ensures (2 * w + (if b then 1 else 0)) / 2 == w && (2 * w + (if b then 1 else 0)) % 2 == if b then 1 else 0
  {
  }

  lemma {:induction false} XorNStep(a: nat, x: bool, b: nat, y: bool, n: nat)
    ensures var (v, w) := (2 * a + (if x then 1 else 0), 2 * b + (if y then 1 else 0));
            XorN(v, w, n + 1) < Pow2(n + 1) && LowBits(XorN(v, w, n + 1), n + 1) == XorBits(LowBits(v, n + 1), LowBits(w, n + 1))
    decreases n, 1
  {
    XorNPush(a, x, b, y, n);
    LowBitsPush(XorN(a, b, n), x != y, n);
    LowBitsPush(a, x, n);
    LowBitsPush(b, y, n);
    XorBitsPush(x, LowBits(a, n), y, LowBits(b, n));
    XorNBits(a, b, n);
  }

  /** Halving a word shifts its bits down. */
  lemma LowBitsHalf(w: nat, n: nat)
    requires w < Pow2(n) && n >= 1
    ensures LowBits(w / 2, n) == LowBits(w, n)[1..] + [false]
  {
    LowBitsTop(w / 2, n - 1);
  }

  lemma {:induction false} LowBitsTop(w: nat, n: nat)
    requires w < Pow2(n)
    ensures LowBits(w, n + 1) == LowBits(w, n) + [false]
    decreases n
  {
    if n > 0 {
      LowBitsTop(w / 2, n - 1);
    }
  }

  /** Extra high bits of a small word are zero. */
  lemma {:induction false} LowBitsPad(w: nat, m: nat, n: nat)
    requires w < Pow2(m) && m <= n
    ensures LowBits(w, n) == LowBits(w, m) + seq(n - m, _ => false)
    decreases n
  {
    if m < n {
      LowBitsPad(w, m, n - 1);
      Pow2Grows(m, n - 1);
      LowBitsTop(w, n - 1);
    }
  }

  lemma {:induction false} Pow2Grows(m: nat, n: nat)
    requires m <= n
    ensures Pow2(m) <= Pow2(n)
    decreases n - m
  {
    if m < n {
      Pow2Grows(m + 1, n);
    }
  }

  lemma Pow2At32()
    ensures Pow2(8) == 0x100 && Pow2(32) == 0x1_0000_0000
  {
    assert Pow2(8) == 0x100;
    assert Pow2(16) == 0x1_0000;
    assert Pow2(24) == 0x100_0000;
  }

  lemma {:induction false} OnesBits(n: nat)
    ensures LowBits(Pow2(n) - 1, n) == seq(n, _ => true)
    decreases n
  {
    if n > 0 {
      OnesBits(n - 1);
      assert (Pow2(n) - 1) / 2 == Pow2(n - 1) - 1;
    }
  }

  lemma SplitHalf(q: nat, p: nat, r: nat)
    ensures (q * (2 * p) + r) / 2 == q * p + r / 2 && (q * (2 * p) + r) % 2 == r % 2
  {
    assert q * (2 * p) == 2 * (q * p);
  }

  /** The low and the high part of a word. */
  lemma {:induction false} LowBitsSplit(q: nat, r: nat, m: nat, n: nat)
    requires r < Pow2(m)
    ensures LowBits(q * Pow2(m) + r, m + n) == LowBits(r, m) + LowBits(q, n)
    decreases m
  {
    if m == 0 {
      assert q * 1 == q;
    } else {
      SplitHalf(q, Pow2(m - 1), r);
      LowBitsSplit(q, r / 2, m - 1, n);
      SplitStep(q * Pow2(m) + r, q * Pow2(m - 1) + r / 2, r, q, m - 1, n);
    }
  }

  lemma SplitStep(w: nat, half: nat, r: nat, q: nat, m: nat, n: nat)
    requires w / 2 == half && w % 2 == r % 2
    requires LowBits(half, m + n) == LowBits(r / 2, m) + LowBits(q, n)
    ensures LowBits(w, m + 1 + n) == LowBits(r, m + 1) + LowBits(q, n)
  {
  }

  // ----- little-endian fields -----

  function LeBytes(v: nat, n: nat): (b: seq<Byte>)
    ensures |b| == n
  {
    if n == 0 then [] else [v % 256] + LeBytes(v / 256, n - 1)
  }

  function LeValue(b: seq<Byte>): nat
    decreases |b|
  {
    if b == [] then 0 else (b[0] as int) + 256 * LeValue(b[1..])
  }

  lemma {:induction false} LeRoundTrip(b: seq<Byte>)
    ensures LeBytes(LeValue(b), |b|) == b
    decreases |b|
  {
    if b != [] {
      LeRoundTrip(b[1..]);
      assert LeValue(b) % 256 == b[0] && LeValue(b) / 256 == LeValue(b[1..]);
    }
  }

  function Pow256(n: nat): nat {
    if n == 0 then 1 else 256 * Pow256(n - 1)
  }

  lemma {:induction false} LeValueOf(v: nat, n: nat)
    requires v < Pow256(n)
    ensures LeValue(LeBytes(v, n)) == v
    decreases n
  {
    if n > 0 {
      LeValueOf(v / 256, n - 1);
      assert LeBytes(v, n)[1..] == LeBytes(v / 256, n - 1);
    }
  }
}
