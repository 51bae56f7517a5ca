/** Trial division and the search for the next prime, which gives every table size. */
module Primes {

  ghost predicate Divides(d: int, n: int)
    requires d != 0
  {
    n % d == 0
  }

  ghost predicate IsPrime(n: int) {
    n >= 2 && forall d :: 2 <= d < n ==> !Divides(d, n)
  }

  /** What is_prime answers: it takes everything up to 3 for a prime. */
  ghost predicate PassesTest(n: int) { n <= 3 || IsPrime(n) }

  /** The answer is right from 2 upwards and wrong below. */
  lemma TestExact(n: int)
    ensures (PassesTest(n) <==> IsPrime(n)) <==> n >= 2
  {
    if n == 3 {
      assert !Divides(2, 3);
    }
  }

  // ---- divisibility

  lemma ModOfSum(d: int, q: int, r: int)
    requires 0 <= r < d && q >= 0
    ensures (q * d + r) % d == r
    decreases q
  {
    if q > 0 {
      ModOfSum(d, q - 1, r);
      assert q * d + r == ((q - 1) * d + r) + d;
      AddModulus((q - 1) * d + r, d);
    } else {
      assert q * d == 0;
    }
  }

  lemma AddModulus(x: int, d: int)
    requires d > 0 && x >= 0
    ensures (x + d) % d == x % d
  {
    var q, r := x / d, x % d;
    assert (q + 1) * d == q * d + d;
    var q', r' := (x + d) / d, (x + d) % d;
    assert q' * d + r' == (q + 1) * d + r;
    Unique(d, q', r', q + 1, r);
  }

  lemma Unique(d: int, q: int, r: int, q': int, r': int)
    requires d > 0 && 0 <= r < d && 0 <= r' < d && q * d + r == q' * d + r'
    ensures r == r'
  {
    if q > q' {
      MultipleGap(d, q, q');
    } else if q < q' {
      MultipleGap(d, q', q);
    }
  }

  lemma MultipleGap(d: int, q: int, q': int)
    requires d > 0 && q > q'
    ensures q * d >= q' * d + d
    decreases q - q'
  {
    assert q * d == (q - 1) * d + d;
    if q - 1 > q' {
      MultipleGap(d, q - 1, q');
    }
  }

  lemma DividesProduct(d: int, q: int)
    requires d > 0 && q >= 0
    ensures Divides(d, q * d)
  {
    ModOfSum(d, q, 0);
  }

  lemma DividesTransitive(a: int, b: int, n: int)
    requires 0 < a && 0 < b && 0 <= n && Divides(a, b) && Divides(b, n)
    ensures Divides(a, n)
  {
    var x, y := b / a, n / b;
    assert n == (y * x) * a by {
      assert b == x * a && n == y * b;
      assert y * (x * a) == (y * x) * a;
    }
    DividesProduct(a, y * x);
  }

  /** A prime is a number from 2 that is no product of two numbers from 2. */
  lemma PrimeMeaning(n: int)
    ensures IsPrime(n) <==> n >= 2 && forall a, b :: a >= 2 && b >= 2 ==> a * b != n
  {
    forall a, b | a >= 2 && b >= 2 && a * b == n
      ensures !IsPrime(n)
    {
      FactorBelow(a, b);
      DividesProduct(b, a);
      assert Divides(b, n);
    }
    if n >= 2 && !IsPrime(n) {
      var d :| 2 <= d < n && Divides(d, n);
      Cofactor(n, d);
      assert (n / d) * d == n;
    }
  }

  lemma FactorBelow(a: int, b: int)
    requires a >= 2 && b >= 2
    ensures b < a * b
  {
    MultipleGap(b, a, 1);
  }

  lemma Cofactor(n: int, d: int)
    requires 2 <= d < n && Divides(d, n)
    ensures n / d >= 2 && (n / d) * d == n
  {
    var q := n / d;
    assert q * d == n;
    if q <= 0 {
      MultipleGap(d, 1, q);
    }
  }

  // ---- Euclid: there is always a larger prime

  function Factorial(n: nat): nat { if n == 0 then 1 else n * Factorial(n - 1) }

  lemma {:induction false} FactorialDivisible(n: nat, d: nat)
    requires 1 <= d <= n
    ensures Divides(d, Factorial(n)) && Factorial(n) >= 1
  {
    FactorialPositive(n - 1);
    if d == n {
      DividesProduct(d, Factorial(n - 1));
      assert Factorial(n) == Factorial(n - 1) * d;
    } else {
      FactorialDivisible(n - 1, d);
      var q := Factorial(n - 1) / d;
      assert Factorial(n) == (n * q) * d by {
        assert Factorial(n - 1) == q * d;
        assert n * (q * d) == (n * q) * d;
      }
      DividesProduct(d, n * q);
    }
    FactorialPositive(n);
  }

  lemma {:induction false} FactorialPositive(n: nat)
    ensures Factorial(n) >= 1
  {
    if n > 0 {
      FactorialPositive(n - 1);
      assert n * Factorial(n - 1) >= 1;
    }
  }

  /** Every number from 2 has a prime divisor. */
  lemma {:induction false} PrimeDivisor(n: int) returns (p: int)
    requires n >= 2
    ensures 2 <= p <= n && IsPrime(p) && Divides(p, n)
    decreases n
  {
    if IsPrime(n) {
      p := n;
      DividesProduct(n, 1);
    } else {
      var d :| 2 <= d < n && Divides(d, n);
      p := PrimeDivisor(d);
      DividesTransitive(p, d, n);
    }
  }

  lemma NextNotDivisible(d: int, n: int)
    requires d >= 2 && n >= 0 && Divides(d, n)
    ensures !Divides(d, n + 1)
  {
    var q := n / d;
    assert n == q * d;
    ModOfSum(d, q, 1);
  }

  lemma PrimeAbove(k: nat) returns (p: int)
    ensures p > k && IsPrime(p)
  {
    FactorialPositive(k);
    p := PrimeDivisor(Factorial(k) + 1);
    if p <= k {
      FactorialDivisible(k, p);
      NextNotDivisible(p, Factorial(k));
      assert false;
    }
  }

  // ---- the code

  /** An even number divides no odd one. */
  lemma OddsSuffice(d: int, n: int)
    requires d > 0 && d % 2 == 0 && n > 0 && n % 2 != 0
    ensures !Divides(d, n)
  {
    if Divides(d, n) {
      DividesTransitive(2, d, n);
    }
  }

  /** is_prime: exact trial division by 2 and the odd numbers. */
  method TestPrime(n: int) returns (r: bool)
    ensures r <==> PassesTest(n)
  {
    if n <= 3 {
      return true;
    }
    if n % 2 == 0 {
      assert Divides(2, n);
      return false;
    }
    var i := 3;
    while i < n
      invariant 3 <= i && i % 2 == 1
      invariant forall d :: 2 <= d < i && d < n ==> !Divides(d, n)
    {
      if n % i == 0 {
        assert Divides(i, n);
        return false;
      }
      OddsSuffice(i + 1, n);
      i := i + 2;
    }
    return true;
  }

  /** get_prime: the search ends for every start, at the first number that passes the test. */
  method GetPrime(min: int) returns (n: int)
    ensures n >= min && PassesTest(n)
    ensures forall k :: min <= k < n ==> !PassesTest(k)
    ensures IsPrime(n) <==> min >= 2
    ensures n > min <==> !PassesTest(min)
    ensures min <= 3 ==> n == min
    ensures min > 3 && min % 2 == 0 ==> n > min
  {
    ghost var p := PrimeAbove(if min >= 0 then min else 0);
    n := min;
    while true
      invariant min <= n <= p
      invariant forall k :: min <= k < n ==> !PassesTest(k)
      decreases p - n
    {
      var prime := TestPrime(n);
      if prime {
        TestExact(n);
        assert n > min ==> !PassesTest(min);
        assert min > 3 && min % 2 == 0 ==> Divides(2, min);
        return;
      }
      n := n + 1;
    }
  }
}
