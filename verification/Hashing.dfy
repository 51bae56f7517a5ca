/** The hash of a key: Horner's rule modulo a prime, in 32-bit arithmetic. */
module Hashing {
  import opened Bits

  const BIG_PRIME: int := 1560007

  /** A character of a key, as a number: not the terminator, and not negative. */
  type KeyChar = c: int | 1 <= c < 256 witness 1
  type Key = seq<KeyChar>

  /** madd: one conditional subtraction, so BIG_PRIME itself can be returned. */
  function Madd(a: int, b: int): int
    requires IsInt32(a + b)
  {
    if a + b > BIG_PRIME then a + b - BIG_PRIME else a + b
  }

  /** mmul, on operands whose product does not overflow */
  function Mmul(a: nat, b: nat): int
    requires IsInt32(a * b)
  {
    (a * b) % BIG_PRIME
  }

  /** The value of the running hash after the whole key; every 32-bit step is in range. */
  function Hash(s: Key): (h: int)
    ensures 0 <= h <= BIG_PRIME
  {
    if s == [] then 0 else Madd(Mmul(Hash(s[..|s| - 1]), 256), s[|s| - 1])
  }

  /** The key read as a number in base 256. */
  function Poly(s: Key): nat {
    if s == [] then 0 else Poly(s[..|s| - 1]) * 256 + s[|s| - 1]
  }

  function Power256(n: nat): nat { if n == 0 then 1 else 256 * Power256(n - 1) }

  /** The first character weighs most: a prefix is shifted by one digit for every character after it. */
  lemma {:induction false} PolyDigits(a: Key, c: KeyChar, b: Key)
    ensures Poly(a + [c] + b) == Poly(a) * 256 * Power256(|b|) + c * Power256(|b|) + Poly(b)
  {
    if b == [] {
      assert (a + [c] + b)[..|a|] == a;
    } else {
      var k := |b| - 1;
      assert (a + [c] + b)[..|a| + 1 + k] == a + [c] + b[..k];
      PolyDigits(a, c, b[..k]);
      ShiftDigit(Poly(a) * 256, c, Power256(k), Poly(b[..k]), b[k]);
    }
  }

  lemma ShiftDigit(x: int, c: int, w: int, low: int, digit: int)
    ensures (x * w + c * w + low) * 256 + digit == x * (256 * w) + c * (256 * w) + (low * 256 + digit)
  {
  }

  /** Modulo BIG_PRIME the hash is that number. */
  lemma {:induction false} HashIsPoly(s: Key)
    ensures Hash(s) % BIG_PRIME == Poly(s) % BIG_PRIME
  {
    hide Madd, Mmul;
    if s != [] {
      var h, p := Hash(s[..|s| - 1]), Poly(s[..|s| - 1]);
      HashIsPoly(s[..|s| - 1]);
      var q := SameResidue(p, h);
      HornerStep(h, p, q, s[|s| - 1]);
    }
  }

  lemma SameResidue(x: int, y: int) returns (q: int)
    requires x % BIG_PRIME == y % BIG_PRIME
    ensures x == y + q * BIG_PRIME
  {
    q := x / BIG_PRIME - y / BIG_PRIME;
  }

  lemma ProductQuotient(h: nat) returns (k: int)
    requires h <= BIG_PRIME
    ensures h * 256 == Mmul(h, 256) + k * BIG_PRIME && 0 <= Mmul(h, 256) < BIG_PRIME
  {
    k := h * 256 / BIG_PRIME;
  }

  lemma HornerStep(h: int, p: nat, q: int, c: KeyChar)
    requires 0 <= h <= BIG_PRIME && p == h + q * BIG_PRIME
    ensures Madd(Mmul(h, 256), c) % BIG_PRIME == (p * 256 + c) % BIG_PRIME
  {
    hide Mmul;
    var k := ProductQuotient(h);
    var j := if Mmul(h, 256) + c > BIG_PRIME then 1 else 0;
    MultipleVanishes(p * 256 + c, Madd(Mmul(h, 256), c), q * 256 + k + j);
  }

  lemma MultipleVanishes(x: int, y: int, t: int)
    requires x == y + t * BIG_PRIME
    ensures x % BIG_PRIME == y % BIG_PRIME
  {
  }

  /** The hash of a non-empty key is that remainder, with BIG_PRIME standing for 0. */
  lemma {:induction false} HashExact(s: Key)
    ensures s != [] ==> Hash(s) == if Poly(s) % 1_560_007 == 0 then 1_560_007 else Poly(s) % 1_560_007
    ensures s == [] <==> Hash(s) == 0
  {
    hide Poly, Mmul;
    HashIsPoly(s);
    if s != [] {
      var _ := ProductQuotient(Hash(s[..|s| - 1]));
      Representative(Hash(s));
    }
  }

  lemma Representative(h: int)
    requires 0 < h <= BIG_PRIME
    ensures h == if h % BIG_PRIME == 0 then BIG_PRIME else h % BIG_PRIME
  {
  }

  /** The upper end of the range is reached: 256^3 + 53 * 256^2 + 115 * 256 + 27 is 13 * BIG_PRIME. */
  lemma UpperEndReached()
    ensures Hash([1, 53, 115, 27]) == 1_560_007
  {
    var s: Key := [1, 53, 115, 27];
    assert s[..3] == [1, 53, 115] && s[..3][..2] == [1, 53] && s[..3][..2][..1] == [1];
    assert Hash([1]) == 1 && Hash([1, 53]) == 309 && Hash([1, 53, 115]) == 79219;
  }

  /** hashcode, character by character; nothing overflows a 32-bit `int`. */
  method Hashcode(s: Key) returns (p: int)
    ensures p == Hash(s)
  {
    p := 0;
    var i := 0;
    while i < |s|
      invariant i <= |s| && p == Hash(s[..i])
    {
      assert s[..i + 1][..i] == s[..i];
      assert IsInt32(p * 256) && IsInt32(Mmul(p, 256) + s[i]);
      p := Madd(Mmul(p, 256), s[i]);
      i := i + 1;
    }
    assert s[..i] == s;
  }
}
