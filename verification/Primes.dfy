/** Primality by trial division, by a sieve and by their combination (samples 1 and 8 of Google Test).
Integers are unbounded. */
module Primes {
  import opened Arithmetic


  ghost predicate Divides(d: int, n: int)
    requires d != 0
  {
    n % d == 0
  }

  ghost predicate Prime(n: int) {
    n >= 2 && forall d :: 2 <= d < n ==> !Divides(d, n)
  }

  /** `q` is the least prime above `p`. */
  ghost predicate IsNextPrime(p: int, q: int) {
    p < q && Prime(q) && forall m :: p < m < q ==> !Prime(m)
  }

  function Fact(n: int): nat
    ensures Fact(n) >= 1
    decreases if n > 0 then n else 0
  {
    if n <= 1 then 1 else Fact(n - 1) * n
  }

  // ----- divisibility -----

  lemma DividesMultiple(d: int, k: int)
    requires d > 0
    ensures Divides(d, d * k) && Divides(d, k * d)
  {
    DivMod(d * k, d, k, 0);
  }

  lemma DividesTransitive(a: int, b: int, c: int)
    requires a > 0 && b > 0 && Divides(a, b) && Divides(b, c)
    ensures Divides(a, c)
  {
    assert c == a * ((b / a) * (c / b));
    DividesMultiple(a, (b / a) * (c / b));
  }

  /** A composite number has a divisor no larger than its square root. */
  lemma SmallDivisor(n: int, d: int) returns (e: int)
    requires 2 <= d < n && Divides(d, n)
    ensures 2 <= e < n && e * e <= n && Divides(e, n)
  {
    var q := n / d;
    assert n == d * q;
    MulMonotone(q, 1, d);
    MulMonotone(2, d, q);
    DividesMultiple(q, d);
    MulMonotone(d, q, d);
    MulMonotone(q, d, q);
    e := if d <= q then d else q;
  }

  /** Trial division up to the square root loses no divisor. */
  lemma TrialDivision(n: int, i: int)
    requires n >= 2 && i >= 2 && i * i > n
    requires forall d :: 2 <= d < i && d < n ==> !Divides(d, n)
    ensures Prime(n)
  {
    forall d | 2 <= d < n
      ensures !Divides(d, n)
    {
      if Divides(d, n) {
        var e := SmallDivisor(n, d);
        MulMonotone(i, e, i);
        MulMonotone(i, e, e);
        assert false;
      }
    }
  }

  lemma SquareRoot(n: nat, i: nat)
    requires i > 0
    ensures i > n / i <==> i * i > n
  {
    MulMonotone(i, n / i, i);
    MulMonotone(n / i + 1, i, i);
  }

  // ----- Euclid: there is always a larger prime -----

  lemma {:induction false} PrimeDivisor(n: int) returns (q: int)
    requires n >= 2
    ensures Prime(q) && q <= n && Divides(q, n)
  {
    if Prime(n) {
      q := n;
      DividesMultiple(n, 1);
    } else {
      var d :| 2 <= d < n && Divides(d, n);
      q := PrimeDivisor(d);
      DividesTransitive(q, d, n);
    }
  }

  lemma {:induction false} DividesFact(d: int, n: int)
    requires 1 <= d <= n
    ensures Divides(d, Fact(n))
    decreases n
  {
    if n == 1 {
    } else if d == n {
      DividesMultiple(n, Fact(n - 1));
    } else {
      DividesFact(d, n - 1);
      DividesMultiple(Fact(n - 1), n);
      DividesTransitive(d, Fact(n - 1), Fact(n));
    }
  }

  lemma PrimeAbove(p: int) returns (q: int)
    ensures q > p && Prime(q)
  {
    var n := Fact(p) + 1;
    q := PrimeDivisor(n);
    if q <= p {
      DividesFact(q, p);
      DivMod(n, q, Fact(p) / q, 1);
      assert false;
    }
  }

  /** There is at most one next prime, so tables that each compute it agree. */
  lemma NextPrimeUnique(p: int, q: int, r: int)
    requires IsNextPrime(p, q) && IsNextPrime(p, r)
    ensures q == r
  {
    assert !(q < r) && !(r < q);
  }

  // ----- sample 1 -----

  method Factorial(n: int) returns (result: int)
    ensures result == Fact(n)
  {
    result := 1;
    var i := 1;
    while i <= n
      invariant 1 <= i && (i <= n + 1 || i == 1)
      invariant result == Fact(i - 1)
    {
      result := result * i;
      i := i + 1;
    }
  }

  /** Trial division by 2 and the odd numbers up to the square root. */
  method IsPrimeSample1(n: int) returns (b: bool)
    ensures b <==> Prime(n)
  {
    if n <= 1 {
      return false;
    }
    if n % 2 == 0 {
      assert Divides(2, n);
      return n == 2;
    }
    var i := 3;
    while true
      invariant i >= 3 && i % 2 == 1
      invariant forall d :: 2 <= d < i && d < n ==> !Divides(d, n)
      decreases n + 3 - i
    {
      SquareRoot(n, i);
      if i > n / i {
        break;
      }
      MulMonotone(3, i, i);
      if n % i == 0 {
        assert Divides(i, n);
        return false;
      }
      OddStep(n, i);
      i := i + 2;
    }
    TrialDivision(n, i);
    return true;
  }

  /** An odd number has no even divisor. */
  lemma OddStep(n: int, i: int)
    requires n % 2 == 1 && i % 2 == 1 && i > 0
    ensures !Divides(i + 1, n)
  {
    if Divides(i + 1, n) {
      DividesTransitive(2, i + 1, n);
      assert false;
    }
  }

  // ----- on-the-fly table -----

  class OnTheFlyPrimeTable {
    constructor () {}

    method IsPrime(n: int) returns (b: bool)
      ensures b <==> Prime(n)
    {
      if n <= 1 {
        return false;
      }
      var i := 2;
      while i * i <= n
        invariant i >= 2
        invariant forall d :: 2 <= d < i && d < n ==> !Divides(d, n)
        decreases n - i
      {
        MulMonotone(2, i, i);
        if n % i == 0 {
          assert Divides(i, n);
          return false;
        }
        i := i + 1;
      }
      TrialDivision(n, i);
      return true;
    }

    /** The loop guard `n > 0` makes the next prime the result exactly for non-negative `p`. */
    method GetNextPrime(p: int) returns (q: int)
      ensures p >= 0 <==> IsNextPrime(p, q)
      ensures p < 0 ==> q == -1
    {
      ghost var bound := PrimeAbove(p);
      var n := p + 1;
      while n > 0
        invariant p < n <= bound && (p < 0 ==> n == p + 1)
        invariant forall m :: p < m < n ==> !Prime(m)
        decreases bound - n
      {
        var found := IsPrime(n);
        if found {
          return n;
        }
        n := n + 1;
      }
      return -1;
    }
  }

  // ----- sieve -----

  /** No number below `i` other than `n` itself properly divides `n`. */
  ghost predicate Survives(n: int, i: int) {
    n >= 2 && forall d :: 2 <= d < i && d < n ==> !Divides(d, n)
  }

  /** Sieving by a composite `i` would strike out nothing new. */
  lemma CompositeStep(i: int, n: int)
    requires 2 <= i && !Survives(i, i) && Survives(n, i)
    ensures Survives(n, i + 1)
  {
    if i < n && Divides(i, n) {
      var d :| 2 <= d < i && Divides(d, i);
      DividesTransitive(d, i, n);
      assert false;
    }
  }

  class PreCalculatedPrimeTable {
    const max: int
    const isPrime: array<bool>

    ghost predicate Valid()
      reads isPrime
    {
      max >= 1 && isPrime.Length == max + 1 && forall n :: 0 <= n <= max ==> (isPrime[n] <==> Prime(n))
    }

    /** The table needs room for the entry of 1. */
    constructor (max: int)
      requires max >= 1
      ensures Valid() && this.max == max && fresh(isPrime)
    {
      this.max := max;
      isPrime := new bool[max + 1];
      new;
      CalculatePrimesUpTo(isPrime, max);
    }

    static method CalculatePrimesUpTo(a: array<bool>, max: int)
      requires max >= 1 && a.Length == max + 1
      modifies a
      ensures forall n :: 0 <= n <= max ==> (a[n] <==> Prime(n))
    {
      forall n | 0 <= n <= max {
        a[n] := true;
      }
      a[0] := false;
      a[1] := false;
      var i := 2;
      while i <= max
        invariant 2 <= i <= max + 1
        invariant forall n :: 0 <= n <= max ==> (a[n] <==> Survives(n, i))
      {
        if !a[i] {
          forall n | 0 <= n <= max && Survives(n, i) {
            CompositeStep(i, n);
          }
        } else {
          StrikeOut(a, max, i);
        }
        i := i + 1;
      }
    }

    /** Marks all multiples of `i`, except `i` itself, as non-prime. */
    static method StrikeOut(a: array<bool>, max: int, i: int)
      requires 2 <= i <= max && a.Length == max + 1
      modifies a
      ensures forall n :: 0 <= n <= max ==> (a[n] <==> old(a[n]) && !(n > i && Divides(i, n)))
    {
      ghost var k := 2;
      DividesMultiple(i, 2);
      var j := 2 * i;
      while j <= max
        invariant k >= 2 && j == k * i && Divides(i, j)
        invariant forall n :: 0 <= n <= max ==> (a[n] <==> old(a[n]) && !(i < n < j && Divides(i, n)))
        decreases max - j
      {
        a[j] := false;
        forall n | j < n < j + i
          ensures !Divides(i, n)
        {
          DivMod(n, i, k, n - j);
        }
        k := k + 1;
        DividesMultiple(i, k);
        assert k * i == j + i;
        j := j + i;
      }
      forall n | i < n < 2 * i
        ensures !Divides(i, n)
      {
        DivMod(n, i, 1, n - i);
      }
    }

    method IsPrime(n: int) returns (b: bool)
      requires Valid()
      ensures b <==> n <= max && Prime(n)
    {
      return 0 <= n && n < max + 1 && isPrime[n];
    }

    /** The precondition keeps the first index read inside the table. */
    method GetNextPrime(p: int) returns (q: int)
      requires Valid() && p >= -1
      ensures if exists m :: p < m <= max && Prime(m) then IsNextPrime(p, q) && q <= max else q == -1
    {
      var n := p + 1;
      while n < max + 1
        invariant p < n
        invariant forall m :: p < m < n && m <= max ==> !Prime(m)
      {
        if isPrime[n] {
          return n;
        }
        n := n + 1;
      }
      return -1;
    }
  }

  // ----- sample 8 -----

  class HybridPrimeTable {
    const onTheFly: OnTheFlyPrimeTable
    const precalc: PreCalculatedPrimeTable?
    const maxPrecalculated: int

    ghost predicate Valid()
      reads if precalc != null then {precalc.isPrime} else {}
    {
      precalc != null ==> precalc.Valid() && precalc.max == maxPrecalculated
    }

    constructor (forceOnTheFly: bool, maxPrecalculated: int)
      requires !forceOnTheFly ==> maxPrecalculated >= 1
      ensures Valid() && this.maxPrecalculated == maxPrecalculated && (precalc == null <==> forceOnTheFly)
    {
      onTheFly := new OnTheFlyPrimeTable();
      if forceOnTheFly {
        precalc := null;
      } else {
        precalc := new PreCalculatedPrimeTable(maxPrecalculated);
      }
      this.maxPrecalculated := maxPrecalculated;
    }

    method IsPrime(n: int) returns (b: bool)
      requires Valid()
      ensures b <==> Prime(n)
    {
      if precalc != null && n < maxPrecalculated {
        b := precalc.IsPrime(n);
      } else {
        b := onTheFly.IsPrime(n);
      }
    }

    /** The least prime above every `p >= 0`, as the on-the-fly table finds it, whatever the capacity of the
    other one.  The two differ at -1. */
    method GetNextPrime(p: int) returns (q: int)
      requires Valid() && (precalc != null ==> p >= -1)
      ensures p >= 0 ==> IsNextPrime(p, q)
      ensures p < 0 ==> q == if precalc != null && maxPrecalculated >= 2 then 2 else -1
    {
      var nextPrime := -1;
      if precalc != null && p < maxPrecalculated {
        nextPrime := precalc.GetNextPrime(p);
        assert Prime(2);
      }
      if nextPrime != -1 {
        q := nextPrime;
      } else {
        q := onTheFly.GetNextPrime(p);
      }
    }
  }
}
