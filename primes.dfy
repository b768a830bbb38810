/** The prime helpers of hashyt.js:137-153 (`isPrime`, `getNextPrime`) and the
    number theory that their termination and correctness rest on. */
module Primes {
  import opened Sdbm

  /** n is prime: at least 2 and without a divisor in [2, n). */
  ghost predicate Prime(n: int) {
    n >= 2 && forall d :: 2 <= d < n ==> n % d != 0
  }

  /** No prime lies in [lo, hi). */
  ghost predicate NoPrimeIn(lo: int, hi: int) {
    forall q :: lo <= q < hi ==> !Prime(q)
  }

  /** `isPrime` of hashyt.js:148-153: trial division by every i in [2, num).
      For num < 2 the loop never runs, so such numbers are accepted too. */
  method IsPrime(num: int) returns (r: bool)
    ensures r <==> num < 2 || Prime(num)
  {
    var i := 2;
    while i < num
      invariant 2 <= i
      invariant forall d :: 2 <= d < i ==> num % d != 0
    {
      if num % i == 0 {
        return false;
      }
      i := i + 1;
    }
    return true;
  }

  /** `getNextPrime` of hashyt.js:137-146: make the candidate odd, then step
      by two until `isPrime` accepts it. For num >= 3 the result is the
      least prime at or above num. */
  method GetNextPrime(num: int) returns (p: int)
    ensures p >= num && p % 2 == 1
    ensures p < 2 || Prime(p)
    ensures num >= 3 ==> Prime(p) && NoPrimeIn(num, p)
  {
    p := num;
    if p % 2 == 0 {
      p := p + 1;
    }
    NoPrimeBeforeOdd(num, p);
    ghost var bound := OddPrimeAtLeast(p);
    var prime := IsPrime(p);
    while !prime
      invariant p >= num && p % 2 == 1
      invariant p <= bound && (bound - p) % 2 == 0 && Prime(bound)
      invariant prime <==> p < 2 || Prime(p)
      invariant num >= 3 ==> NoPrimeIn(num, p)
      decreases bound - p
    {
      NoPrimeStep(num, p);
      p := p + 2;
      prime := IsPrime(p);
    }
  }

  /** Making the candidate odd skips no prime. */
  lemma NoPrimeBeforeOdd(num: int, p: int)
    requires p == if num % 2 == 0 then num + 1 else num
    ensures num >= 3 ==> NoPrimeIn(num, p)
  {
  }

  /** Stepping past an odd non-prime and the even number after it skips
      no prime. */
  lemma NoPrimeStep(num: int, p: int)
    requires p >= 2 && p % 2 == 1 && !Prime(p)
    requires num >= 3 ==> NoPrimeIn(num, p)
    ensures num >= 3 ==> NoPrimeIn(num, p + 2)
  {
    EvenNotPrime(p + 1);
  }

  /** An even number other than 2 is not prime. */
  lemma EvenNotPrime(n: int)
    requires n % 2 == 0
    ensures n != 2 ==> !Prime(n)
  {
  }

  /** An odd prime at or above the odd number n. */
  lemma OddPrimeAtLeast(n: int) returns (p: int)
    requires n % 2 == 1
    ensures p >= n && (p - n) % 2 == 0 && Prime(p)
  {
    ExistsPrimeAtLeast(if n < 3 then 3 else n);
    p :| p >= n && p >= 3 && Prime(p);
    if p % 2 == 0 {
      EvenNotPrime(p);
    }
  }

  /** There is a prime at or above every n (Euclid: the least divisor of
      n! + 1 that is at least 2 is a prime above n). */
  lemma ExistsPrimeAtLeast(n: nat)
    ensures exists p :: p >= n && Prime(p)
  {
    var m := Factorial(n) + 1;
    var p := LeastDivisor(m, 2);
    LeastDivisorIsPrime(m);
    if p < n {
      FactorialDivisible(n, p);
      var a, b := Factorial(n) / p, m / p;
      ModUnique(Factorial(n), p, a, 0);
      assert m == p * b;
      assert p * (b - a) == 1;
      if b - a >= 1 {
        MulAtLeast(p, b - a);
      } else {
        MulAtLeast(p, a - b + 1);
      }
      assert false;
    }
  }

  function Factorial(n: nat): (f: nat)
    ensures f >= 1
  {
    if n == 0 then 1 else n * Factorial(n - 1)
  }

  lemma {:induction false} FactorialDivisible(n: nat, k: int)
    requires 1 <= k <= n
    ensures Factorial(n) % k == 0
  {
    if k == n {
      ModUnique(Factorial(n), n, Factorial(n - 1), 0);
    } else {
      FactorialDivisible(n - 1, k);
      var q := Factorial(n - 1) / k;
      assert Factorial(n - 1) == k * q;
      assert Factorial(n) == k * (n * q);
      ModUnique(Factorial(n), k, n * q, 0);
    }
  }

  /** The least e in [d, m] that divides m. */
  function LeastDivisor(m: int, d: int): (r: int)
    requires 2 <= d <= m
    ensures d <= r <= m && m % r == 0
    ensures forall e :: d <= e < r ==> m % e != 0
    decreases m - d
  {
    ModUnique(m, m, 1, 0);
    if m % d == 0 then d else LeastDivisor(m, d + 1)
  }

  lemma LeastDivisorIsPrime(m: int)
    requires m >= 2
    ensures Prime(LeastDivisor(m, 2))
  {
    var p := LeastDivisor(m, 2);
    forall e | 2 <= e < p
      ensures p % e != 0
    {
      if p % e == 0 {
        var a, b := p / e, m / p;
        assert p == e * a;
        assert m == p * b;
        assert m == e * (a * b);
        ModUnique(m, e, a * b, 0);
      }
    }
  }

  /** 17 is prime and none of 14, 15, 16 is. */
  lemma SeventeenAfterFourteen()
    ensures Prime(17) && NoPrimeIn(14, 17)
  {
    assert 14 % 2 == 0 && 15 % 3 == 0 && 16 % 2 == 0;
    forall d | 2 <= d < 17
      ensures 17 % d != 0
    {
    }
  }

  /** The concrete case of the first resize: getNextPrime(14) is 17. */
  lemma NextPrimeAfterFourteen(p: int)
    requires p >= 14 && Prime(p)
    requires NoPrimeIn(14, p)
    ensures p == 17
  {
    SeventeenAfterFourteen();
  }
}
