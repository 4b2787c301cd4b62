/** The two Fibonacci implementations of skynet/math/sequences.py: the additive
    generator `Fibonacci` and the fast-doubling function `fibonacci`, both
    proved equal to the textbook recurrence. */
module Fibonacci {

  /** The textbook definition: F(0) = 0, F(1) = 1, F(n) = F(n-2) + F(n-1). */
  function Fib(n: nat): nat {
    if n < 2 then n else Fib(n - 2) + Fib(n - 1)
  }

  /** The addition formula F(a+b+1) = F(a+1)F(b+1) + F(a)F(b). */
  lemma {:induction false} FibAddition(a: nat, b: nat)
    ensures Fib(a + b + 1) == Fib(a + 1) * Fib(b + 1) + Fib(a) * Fib(b)
    decreases b
  {
    if b == 0 {
      assert Fib(1) == 1;
    } else if b == 1 {
      assert Fib(2) == 1;
    } else {
      FibAddition(a, b - 1);
      FibAddition(a, b - 2);
      FibAdditionStep(a, b);
    }
  }

  /** The inductive step of FibAddition, from the two previous values of b. */
  lemma FibAdditionStep(a: nat, b: nat)
    requires b >= 2
    requires Fib(a + b) == Fib(a + 1) * Fib(b) + Fib(a) * Fib(b - 1)
    requires Fib(a + b - 1) == Fib(a + 1) * Fib(b - 1) + Fib(a) * Fib(b - 2)
    ensures Fib(a + b + 1) == Fib(a + 1) * Fib(b + 1) + Fib(a) * Fib(b)
  {
    var x: int, y: int := Fib(a + 1), Fib(a);
    var u: int, v: int, w: int := Fib(b - 2), Fib(b - 1), Fib(b);
    assert Fib(a + b + 1) == Fib(a + b - 1) + Fib(a + b);
    assert Fib(b + 1) == v + w;
    assert w == u + v;
    Combine(x, y, u, v, w);
  }

  lemma Combine(x: int, y: int, u: int, v: int, w: int)
    ensures x * v + y * u + (x * w + y * v) == x * (v + w) + y * (u + v)
  {
  }

  /** Doubling for odd indices: F(2k+1) = F(k)^2 + F(k+1)^2. */
  lemma FibDoublingOdd(k: nat)
    ensures Fib(2 * k + 1) == Fib(k) * Fib(k) + Fib(k + 1) * Fib(k + 1)
  {
    FibAddition(k, k);
  }

  /** Doubling for even indices: F(2k) = (2F(k-1) + F(k)) F(k). */
  lemma FibDoublingEven(k: nat)
    requires k >= 1
    ensures Fib(2 * k) == (2 * Fib(k - 1) + Fib(k)) * Fib(k)
  {
    FibAddition(k, k - 1);
    assert Fib(k + 1) == Fib(k - 1) + Fib(k);
    Regroup(Fib(k - 1), Fib(k));
  }

  lemma Regroup(z: int, y: int)
    ensures (z + y) * y + y * z == (2 * z + y) * y
  {
  }

  /** `fibonacci(n)` by fast doubling (the memoising decorator changes no result). */
  function FastFib(n: nat): (r: nat)
    ensures r == Fib(n)
    decreases n
  {
    if n == 0 || n == 1 then n
    else if n % 2 == 1 then
      var k := (n - 1) / 2;
      var a := FastFib(k);
      var b := FastFib(k + 1);
      OddCase(n, k, a, b);
      a * a + b * b
    else
      var k := n / 2;
      var a := FastFib(k - 1);
      var b := FastFib(k);
      EvenCase(n, k, a, b);
      (2 * a + b) * b
  }

  lemma OddCase(n: nat, k: nat, a: nat, b: nat)
    requires n % 2 == 1 && k == (n - 1) / 2 && a == Fib(k) && b == Fib(k + 1)
    ensures a * a + b * b == Fib(n)
  {
    assert n == 2 * k + 1;
    FibDoublingOdd(k);
  }

  lemma EvenCase(n: nat, k: nat, a: nat, b: nat)
    requires n >= 2 && n % 2 == 0 && k == n / 2 && a == Fib(k - 1) && b == Fib(k)
    ensures (2 * a + b) * b == Fib(n)
  {
    assert n == 2 * k;
    FibDoublingEven(k);
  }

  /** The generator `Fibonacci()`: the pair (p, q) advanced by p, q = q, p + q. */
  class FibonacciGenerator {
    var p: nat
    var q: nat
    /** The values yielded so far. */
    ghost var produced: seq<nat>

    ghost predicate Valid()
      reads this
    {
      && p == Fib(|produced|)
      && q == Fib(|produced| + 1)
      && forall i :: 0 <= i < |produced| ==> produced[i] == Fib(i)
    }

    constructor ()
      ensures Valid() && produced == []
    {
      p, q := 0, 1;
      produced := [];
    }

    /** Yields p, then advances the pair. */
    method Next() returns (x: nat)
      requires Valid()
      modifies this
      ensures Valid()
      ensures x == Fib(|old(produced)|) && x == FastFib(|old(produced)|)
      ensures produced == old(produced) + [x]
    {
      x := p;
      p, q := q, p + q;
      produced := produced + [x];
    }
  }
}
