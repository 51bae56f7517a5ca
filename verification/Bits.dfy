/** Machine arithmetic used by the allocator: the bit operators of C on 64-bit words,
    the truncating conversion to `int`, and the little-endian layout of a word in memory.
    The operators are defined bit by bit; the lemmas give their arithmetic meaning. */
module Bits {

  const TWO_31: int := 0x8000_0000
  const TWO_32: int := 0x1_0000_0000
  const TWO_64: int := 0x1_0000_0000_0000_0000

  type Word = w: int | 0 <= w < TWO_64
  type Byte = b: int | 0 <= b < 256

  predicate IsInt32(x: int) { -TWO_31 <= x < TWO_31 }

  function Min(a: int, b: int): (m: int)
    ensures m <= a && m <= b && (m == a || m == b)
  {
    if a < b then a else b
  }

  function And(a: nat, b: nat): nat {
    if a == 0 || b == 0 then 0
    else 2 * And(a / 2, b / 2) + (if a % 2 == 1 && b % 2 == 1 then 1 else 0)
  }

  function Or(a: nat, b: nat): nat {
    if a == 0 then b
    else if b == 0 then a
    else 2 * Or(a / 2, b / 2) + (if a % 2 == 1 || b % 2 == 1 then 1 else 0)
  }

  function Not64(a: Word): Word { TWO_64 - 1 - a }

  function Pow2(k: nat): nat { if k == 0 then 1 else 2 * Pow2(k - 1) }

  lemma {:induction false} Pow2Monotone(j: nat, k: nat)
    requires j <= k
    ensures 1 <= Pow2(j) <= Pow2(k)
  {
    if j < k {
      Pow2Monotone(j, k - 1);
    } else if j > 0 {
      Pow2Monotone(j - 1, k - 1);
    }
  }

  lemma Pow2Shift8(k: nat)
    ensures Pow2(k + 8) == 256 * Pow2(k)
  {
    assert Pow2(k + 2) == 4 * Pow2(k);
    assert Pow2(k + 4) == 4 * Pow2(k + 2);
    assert Pow2(k + 6) == 4 * Pow2(k + 4);
  }

  lemma Pow2Of64()
    ensures Pow2(64) == TWO_64
  {
    Pow2Shift8(0);
    Pow2Shift8(8);
    Pow2Shift8(16);
    Pow2Shift8(24);
    Pow2Shift8(32);
    Pow2Shift8(40);
    Pow2Shift8(48);
    Pow2Shift8(56);
  }

  /** The number formed by the k lowest binary digits of `a`. */
  function LowBits(a: nat, k: nat): nat {
    if k == 0 then 0 else 2 * LowBits(a / 2, k - 1) + a % 2
  }

  lemma LowBits4(a: nat)
    ensures LowBits(a, 1) == a % 2
    ensures LowBits(a, 4) == a % 16
    ensures LowBits(a, 8) == LowBits(a, 4) + 16 * LowBits(a / 16, 4)
  {
    var a1 := a / 2;
    var a2 := a1 / 2;
    var a3 := a2 / 2;
    var a4 := a3 / 2;
    assert a4 == a / 16;
    assert LowBits(a3, 1) == a3 % 2 && LowBits(a3, 5) == 2 * LowBits(a4, 4) + a3 % 2;
    assert LowBits(a2, 2) == 2 * LowBits(a3, 1) + a2 % 2 && LowBits(a2, 6) == 2 * LowBits(a3, 5) + a2 % 2;
    assert LowBits(a1, 3) == 2 * LowBits(a2, 2) + a1 % 2 && LowBits(a1, 7) == 2 * LowBits(a2, 6) + a1 % 2;
    assert LowBits(a, 4) == 2 * LowBits(a1, 3) + a % 2 && LowBits(a, 8) == 2 * LowBits(a1, 7) + a % 2;
  }

  lemma LowBitsMod(a: nat)
    ensures LowBits(a, 1) == a % 2 && LowBits(a, 4) == a % 16 && LowBits(a, 8) == a % 256
  {
    hide LowBits;
    LowBits4(a);
    LowBits4(a / 16);
    assert a % 16 + 16 * (a / 16 % 16) == a % 256;
  }

  lemma AndUnfold(a: nat, b: nat)
    ensures And(a, b) == 2 * And(a / 2, b / 2) + (if a % 2 == 1 && b % 2 == 1 then 1 else 0)
  {
  }

  lemma LowBitsUnfold(a: nat, k: nat)
    requires k > 0
    ensures LowBits(a, k) == 2 * LowBits(a / 2, k - 1) + a % 2
  {
  }

  lemma Doubled(x: int, bit: nat)
    requires bit <= 1
    ensures (2 * x - bit) / 2 == x - bit && (2 * x - bit) % 2 == bit
  {
  }

  lemma {:induction false} AndOnes(a: nat, n: nat)
    requires a < Pow2(n)
    ensures And(a, Pow2(n) - 1) == a
  {
    if n > 0 {
      hide And;
      Doubled(Pow2(n - 1), 1);
      AndUnfold(a, Pow2(n) - 1);
      AndOnes(a / 2, n - 1);
    }
  }

  /** Masking an n-bit number with n-bit ones above k zeros clears its k low bits. */
  lemma {:induction false} AndHighMask(a: nat, k: nat, n: nat)
    requires k <= n && a < Pow2(n)
    ensures Pow2(k) <= Pow2(n)
    ensures And(a, Pow2(n) - Pow2(k)) == a - LowBits(a, k)
    decreases k, 1
  {
    Pow2Monotone(k, n);
    if k == 0 {
      AndOnes(a, n);
      assert And(a, Pow2(n) - Pow2(0)) == a - LowBits(a, 0);
    } else {
      HighMaskStep(a, k, n);
    }
  }

  lemma {:induction false} HighMaskStep(a: nat, k: nat, n: nat)
    requires 0 < k <= n && a < Pow2(n)
    ensures Pow2(k) <= Pow2(n)
    ensures And(a, Pow2(n) - Pow2(k)) == a - LowBits(a, k)
    decreases k, 0
  {
    hide And, LowBits;
    Pow2Monotone(k - 1, n - 1);
    AndHighMask(a / 2, k - 1, n - 1);
    LowBitsUnfold(a, k);
    var half := Pow2(n - 1) - Pow2(k - 1);
    assert Pow2(n) - Pow2(k) == 2 * half;
    MaskStep(a, half, LowBits(a / 2, k - 1));
  }

  lemma MaskStep(a: nat, half: nat, low: nat)
    requires And(a / 2, half) == a / 2 - low
    ensures And(a, 2 * half) == a - (2 * low + a % 2)
  {
    AndUnfold(a, 2 * half);
  }

  /** Masking with k ones keeps the k low bits. */
  lemma {:induction false} AndLowMask(a: nat, k: nat)
    ensures Pow2(k) > 0
    ensures And(a, Pow2(k) - 1) == LowBits(a, k)
  {
    Pow2Monotone(0, k);
    if a == 0 {
      LowBitsZero(k);
    } else if k > 0 {
      AndLowMask(a / 2, k - 1);
    }
  }

  lemma {:induction false} LowBitsZero(k: nat)
    ensures LowBits(0, k) == 0
  {
    if k > 0 {
      LowBitsZero(k - 1);
    }
  }

  lemma OrLowBit(a: nat, bit: nat)
    requires a % 2 == 0 && bit <= 1
    ensures Or(a, bit) == a + bit
  {
    if a != 0 && bit == 1 {
      assert Or(a / 2, 0) == a / 2;
    }
  }

  lemma AndClearBit0(a: Word)
    ensures And(a, Not64(1)) == a - a % 2
  {
    Pow2Of64();
    LowBitsMod(a);
    AndHighMask(a, 1, 64);
  }

  lemma AndAllOnes(a: Word)
    ensures And(a, Not64(0)) == a
  {
    Pow2Of64();
    AndHighMask(a, 0, 64);
  }

  lemma AndBit0(a: nat)
    ensures And(a, 1) == a % 2
  {
    LowBitsMod(a);
    AndLowMask(a, 1);
  }

  lemma AndLowByte(a: nat)
    ensures And(a, 0xFF) == a % 256
  {
    Pow2Shift8(0);
    LowBitsMod(a);
    AndLowMask(a, 8);
  }

  /** C's conversion of a 64-bit value to a 32-bit two's complement `int`. */
  function ToInt32(w: Word): int {
    var low := w % TWO_32;
    if low < TWO_31 then low else low - TWO_32
  }

  // ---- a word in memory, least significant byte first

  function LeBytes(w: nat, n: nat): (s: seq<Byte>)
    ensures |s| == n
  {
    if n == 0 then [] else [w % 256] + LeBytes(w / 256, n - 1)
  }

  function LeValue(s: seq<Byte>): nat {
    if s == [] then 0 else s[0] + 256 * LeValue(s[1..])
  }

  lemma {:induction false} LeBound(s: seq<Byte>)
    ensures LeValue(s) < Pow2(8 * |s|)
  {
    if s != [] {
      LeBound(s[1..]);
      var k := 8 * |s[1..]|;
      Pow2Shift8(k);
    }
  }

  /** The least significant byte comes first. */
  lemma LeFirst(w: nat, n: nat)
    requires n > 0
    ensures LeBytes(w, n)[0] == w % 256 && LeBytes(w, n)[1..] == LeBytes(w / 256, n - 1)
  {
  }

  lemma {:induction false} LeRoundTrip(w: nat, n: nat)
    requires w < Pow2(8 * n)
    ensures LeValue(LeBytes(w, n)) == w
  {
    if n > 0 {
      var k := 8 * (n - 1);
      Pow2Shift8(k);
      LeRoundTrip(w / 256, n - 1);
      assert LeBytes(w, n)[1..] == LeBytes(w / 256, n - 1);
    }
  }
}
