/** primes.c: counting by trial division. */
module Primes {
  import opened Word

  ghost predicate IsPrime(n: nat) {
    2 <= n && forall d :: 2 <= d < n ==> n % d != 0
  }

  /** What the loop counts: 1 and the odd primes. */
  ghost predicate Counted(n: nat) {
    n % 2 == 1 && (n == 1 || IsPrime(n))
  }

  /** How many numbers in [a, b) the loop counts. */
  ghost function CountRange(a: nat, b: nat): nat
    decreases b
  {
    if b <= a then 0 else CountRange(a, b - 1) + (if Counted(b - 1) then 1 else 0)
  }

  ghost function PrimesBelow(n: nat): nat {
    if n == 0 then 0 else PrimesBelow(n - 1) + (if IsPrime(n - 1) then 1 else 0)
  }

  /** All the assembly routine `sqrt` is relied on for: the result is the integer square root
      of v or one more. */
  predicate RoughSqrt(v: nat, r: nat) {
    v < (r + 1) * (r + 1) && (r == 0 || (r - 1) * (r - 1) <= v)
  }

  /** Counts in [start, stop); the count goes to the log and the result is always 0. */
  method CalculatePrimes(start: nat, stop: nat, sqrt: nat -> nat) returns (result: int, count: nat)
    requires stop < WORD && forall v :: 0 <= v < stop ==> RoughSqrt(v, sqrt(v))
    ensures result == 0 && count == CountRange(start, stop)
  {
    count := 0;
    var i := start;
    while i < stop
      invariant if start <= stop then start <= i <= stop else i == start
      invariant count == CountRange(start, i)
    {
      if i % 2 == 0 {
        i := i + 1;
        continue;
      }
      var isPrime := TrialDivision(i, sqrt);
      if isPrime {
        count := count + 1;
      }
      i := i + 1;
    }
    result := 0;
  }

  /** The inner loop: divides by 3, 4, 5 and so on up to the square root. */
  method TrialDivision(i: nat, sqrt: nat -> nat) returns (isPrime: bool)
    requires i % 2 == 1 && RoughSqrt(i, sqrt(i))
    ensures isPrime <==> Counted(i)
  {
    isPrime := true;
    var j := 3;
    while j <= sqrt(i)
      invariant 3 <= j && isPrime && NoDivisor(i, j)
      decreases sqrt(i) - j
    {
      if i % j == 0 {
        isPrime := false;
        break;
      }
      j := j + 1;
    }
    if isPrime {
      NoDivisorMeansCounted(i, sqrt(i));
    } else {
      DivisorMeansNotCounted(i, sqrt(i), j);
    }
  }

  /** Nothing from 3 up to but not including j divides i. */
  predicate NoDivisor(i: nat, j: nat) {
    forall d :: 3 <= d < j ==> i % d != 0
  }

  /** A composite odd number has a divisor from 3 up to its square root. */
  lemma NoDivisorMeansCounted(i: nat, r: nat)
    requires i % 2 == 1 && RoughSqrt(i, r) && NoDivisor(i, r + 1)
    ensures Counted(i)
  {
    if i != 1 {
      forall d | 2 <= d < i ensures i % d != 0 {
        if i % d == 0 {
          SmallDivisor(i, r, d);
        }
      }
    }
  }

  lemma SmallDivisor(i: nat, r: nat, d: nat)
    requires i % 2 == 1 && i < (r + 1) * (r + 1) && 2 <= d < i && i % d == 0
    ensures exists k :: 3 <= k <= r && i % k == 0
  {
    var e := i / d;
    DivModParts(i, d);
    assert i == e * d;
    assert e > 1;
    DivModParts(i, e);
    ModUnique(i, e, d, 0);
    OddFactor(i, d, e);
    OddFactor(i, e, d);
    if d > r && e > r {
      Products(e, d, r + 1);
    }
  }

  lemma OddFactor(i: nat, d: nat, e: nat)
    requires i % 2 == 1 && i == e * d
    ensures d % 2 == 1
  {
    if d % 2 == 0 { EvenProduct(e, d); }
  }

  lemma EvenProduct(e: nat, d: nat)
    requires d % 2 == 0
    ensures (e * d) % 2 == 0
  {
    assert e * d == 2 * (e * (d / 2));
  }

  lemma Products(a: nat, b: nat, m: nat)
    requires m <= a && m <= b
    ensures a * b >= m * m
  {
    assert a * b >= m * b;
  }

  lemma DivisorMeansNotCounted(i: nat, r: nat, j: nat)
    requires RoughSqrt(i, r) && 3 <= j <= r && i % j == 0 && i % 2 == 1
    ensures !Counted(i)
  {
    if j >= i {
      Products(r - 1, r - 1, i - 1);
    }
  }

  lemma {:induction false} CountRangeSplits(a: nat, b: nat, c: nat)
    requires a <= b <= c
    ensures CountRange(a, c) == CountRange(a, b) + CountRange(b, c)
    decreases c
  {
    if b < c { CountRangeSplits(a, b, c - 1); }
  }

  /** Counting 1 makes up for skipping 2: below any bound but 2 the count is the number of primes. */
  lemma {:induction false} CountIsPrimesBelow(n: nat)
    ensures CountRange(0, n) == PrimesBelow(n) + (if n == 2 then 1 else 0)
  {
    if n > 0 {
      CountIsPrimesBelow(n - 1);
      if n >= 4 { EvenIsNotPrime(n - 1); }
      if n == 3 { assert IsPrime(2); }
    }
  }

  lemma EvenIsNotPrime(n: nat)
    requires n >= 3
    ensures IsPrime(n) ==> n % 2 == 1
  {
  }
}
