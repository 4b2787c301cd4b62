/** Reference definitions for primes: the predicate IsPrime, the smallest
    factor of a number, the ascending list of primes in a range, and the
    classical theorems the enumerators rely on (Euclid's lemma and the
    existence of a prime above any bound). */
module Primality {
  import opened Arithmetic
  import opened GcdTheory

  predicate IsPrime(n: int) {
    n >= 2 && forall d :: 2 <= d < n ==> n % d != 0
  }

  predicate StrictlyIncreasing(s: seq<int>) {
    forall i, j :: 0 <= i < j < |s| ==> s[i] < s[j]
  }

  /** The least divisor of n that is at least d, given that none below d divides n. */
  function SmallestFactorFrom(n: int, d: int): (f: int)
    requires 2 <= d <= n
    requires forall e :: 2 <= e < d ==> n % e != 0
    ensures d <= f <= n && n % f == 0
    ensures forall e :: 2 <= e < f ==> n % e != 0
    decreases n - d
  {
    MulMod(n, 1);
    if n % d == 0 then d else SmallestFactorFrom(n, d + 1)
  }

  /** The least divisor of n above 1; it is always prime. */
  function SmallestFactor(n: int): (f: int)
    requires n >= 2
    ensures 2 <= f <= n && n % f == 0 && IsPrime(f)
    ensures forall e :: 2 <= e < f ==> n % e != 0
  {
    var f := SmallestFactorFrom(n, 2);
    SmallestFactorIsPrime(n, f);
    f
  }

  lemma SmallestFactorIsPrime(n: int, f: int)
    requires 2 <= f <= n && n % f == 0
    requires forall e :: 2 <= e < f ==> n % e != 0
    ensures IsPrime(f)
  {
    forall e | 2 <= e < f
      ensures f % e != 0
    {
      if f % e == 0 {
        DividesTrans(n, f, e);
      }
    }
  }

  /** A number that is not prime has its smallest factor at most its square root. */
  lemma CompositeFactor(n: int)
    requires n >= 2 && !IsPrime(n)
    ensures SmallestFactor(n) < n && SmallestFactor(n) * SmallestFactor(n) <= n
  {
    var f := SmallestFactor(n);
    assert f < n by {
      var e :| 2 <= e < n && n % e == 0;
    }
    var c := n / f;
    ModZero(n, f);
    assert c >= 2 by {
      MulMono(f, c, 1);
    }
    assert n % c == 0 by {
      MulMod(c, f);
    }
    MulMono(f, f, c);
  }

  /** An odd number's smallest factor is odd, hence at least 3. */
  lemma OddSmallestFactor(n: int)
    requires n >= 3 && n % 2 == 1
    ensures SmallestFactor(n) >= 3 && SmallestFactor(n) % 2 == 1
  {
  }

  /** Euclid's lemma: a prime dividing a product divides one of the factors. */
  lemma EuclidLemma(p: int, a: nat, b: nat)
    requires IsPrime(p) && (a * b) % p == 0
    ensures a % p == 0 || b % p == 0
  {
    if a % p != 0 {
      GcdDivides(p, a);
      var g := Gcd(p, a);
      MultipleAtLeast(p, g);
      assert g == 1;
      var x, y := Bezout(p, a);
      var c := (a * b) / p;
      assert a * b == p * c;
      assert b == (p * x + a * y) * b;
      assert b == p * (x * b + c * y);
      MulMod(p, x * b + c * y);
    }
  }

  /** A prime does not divide the square of a different prime. */
  lemma PrimeSquare(p: int, q: int)
    requires IsPrime(p) && IsPrime(q) && p < q
    ensures (q * q) % p != 0
  {
    if (q * q) % p == 0 {
      EuclidLemma(p, q, q);
    }
  }

  function Fact(n: nat): (f: nat)
    ensures f >= 1
  {
    if n == 0 then 1 else n * Fact(n - 1)
  }

  lemma {:induction false} FactDivisible(n: nat, d: int)
    requires 1 <= d <= n
    ensures Fact(n) % d == 0
  {
    if d == n {
      MulMod(n, Fact(n - 1));
    } else {
      FactDivisible(n - 1, d);
      var t := Fact(n - 1) / d;
      assert Fact(n) == d * (t * n);
      MulMod(d, t * n);
    }
  }

  /** Euclid's theorem: above every bound there is a prime. */
  lemma PrimeAbove(n: int) returns (p: int)
    ensures IsPrime(p) && p >= n
  {
    if n <= 2 {
      p := 2;
    } else {
      var m := Fact(n) + 1;
      p := SmallestFactor(m);
      if p <= n {
        FactDivisible(n, p);
        DivModUnique(m, p, Fact(n) / p, 1);
      }
    }
  }

  /** The primes in [lo, hi], in ascending order. */
  function PrimesIn(lo: int, hi: int): seq<int>
    decreases hi - lo
  {
    if hi < lo then [] else PrimesIn(lo, hi - 1) + (if IsPrime(hi) then [hi] else [])
  }

  /** PrimesIn holds every prime of the range, nothing else, in strictly
      ascending order. */
  lemma {:induction false} PrimesInSpec(lo: int, hi: int)
    ensures forall x :: x in PrimesIn(lo, hi) <==> lo <= x <= hi && IsPrime(x)
    ensures StrictlyIncreasing(PrimesIn(lo, hi))
    decreases hi - lo
  {
    if hi >= lo {
      PrimesInSpec(lo, hi - 1);
      var s := PrimesIn(lo, hi - 1);
      assert forall i :: 0 <= i < |s| ==> s[i] in s;
    }
  }

  /** The list of primes from 2 on begins with 2. */
  lemma PrimesFromTwo(n: int)
    requires n >= 2
    ensures |PrimesIn(2, n)| > 0 && PrimesIn(2, n)[0] == 2
  {
    PrimesInSpec(2, n);
    assert 2 in PrimesIn(2, n);
  }

  /** Splitting a range splits its list of primes. */
  lemma {:induction false} PrimesInSplit(lo: int, mid: int, hi: int)
    requires lo <= mid <= hi + 1
    ensures PrimesIn(lo, hi) == PrimesIn(lo, mid - 1) + PrimesIn(mid, hi)
    decreases hi - lo
  {
    if hi >= mid {
      PrimesInSplit(lo, mid, hi - 1);
    }
  }
}
