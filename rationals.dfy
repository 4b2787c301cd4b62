/** `rationals` of skynet/math/sequences.py: starting from a fraction x
    (0/1 by default) it repeatedly replaces x by 1 / (2 floor(x) + 1 - x),
    built as Fraction(d, d * (n // d) + d - n % d) from x = n/d, and yields
    each new value. From 0/1 this is the Calkin-Wilf sequence 1/1, 1/2, 2/1,
    1/3, 3/2, 2/3, 3/1, ... */
module Rationals {
  import opened Arithmetic
  import opened GcdTheory

  /** A fraction n/d as stored by Python's Fraction. */
  datatype Fraction = Fraction(num: int, den: int)

  /** A non-negative fraction in lowest terms with a positive denominator. */
  predicate WellFormed(f: Fraction) {
    f.num >= 0 && f.den >= 1 && Gcd(f.num, f.den) == 1
  }

  /** Dividing a and b by their gcd leaves a coprime pair with the same ratio. */
  lemma DivideByGcd(a: nat, b: nat, g: int)
    requires b >= 1 && g == Gcd(a, b)
    ensures g >= 1 && a == g * (a / g) && b == g * (b / g)
    ensures a / g >= 0 && b / g >= 1 && Gcd(a / g, b / g) == 1
  {
    GcdDivides(a, b);
    ModZero(a, g);
    ModZero(b, g);
    var u, v := a / g, b / g;
    assert u >= 0 by {
      if u < 0 {
        MulBounds(g, u);
      }
    }
    assert v >= 1 by {
      if v < 1 {
        MulBounds(g, v);
      }
    }
    ReducedCoprime(g, u, v);
  }

  /** If g is the gcd of g*u and g*v then u and v are coprime. */
  lemma ReducedCoprime(g: int, u: nat, v: nat)
    requires g >= 1 && v >= 1 && g * u >= 0 && g * v >= 0 && Gcd(g * u, g * v) == g
    ensures Gcd(u, v) == 1
  {
    GcdDivides(u, v);
    var h := Gcd(u, v);
    ScaledMultiple(g, u, h);
    ScaledMultiple(g, v, h);
    CommonDivisorDividesGcd(g * u, g * v, g * h);
    MultipleAtLeast(g, g * h);
    MulMono(g, h, 2);
  }

  /** The constructor `Fraction(a, b)` for a >= 0 and b >= 1: lowest terms,
      same value. */
  function MakeFraction(a: int, b: int): (f: Fraction)
    requires a >= 0 && b >= 1
    ensures WellFormed(f) && a * f.den == b * f.num
  {
    var g := Gcd(a, b);
    DivideByGcd(a, b, g);
    var u, v := a / g, b / g;
    SameRatio(a, b, g, u, v);
    Fraction(u, v)
  }

  lemma SameRatio(a: int, b: int, g: int, u: int, v: int)
    requires a == g * u && b == g * v
    ensures a * v == b * u
  {
    assert (g * u) * v == (g * v) * u;
  }

  /** A fraction already in lowest terms is left unchanged by the constructor. */
  lemma MakeFractionReduced(a: int, b: int)
    requires a >= 0 && b >= 1 && Gcd(a, b) == 1
    ensures MakeFraction(a, b) == Fraction(a, b)
  {
  }

  /** One step of the loop: the fraction that the loop body builds from
      `now`. */
  function Step(f: Fraction): (s: Fraction)
    requires WellFormed(f)
    ensures WellFormed(s) && s.num == f.den && s.den > f.num / f.den * f.den
  {
    var d, q, r := f.den, f.num / f.den, f.num % f.den;
    assert q >= 0 by {
      if q < 0 {
        MulBounds(d, q);
      }
    }
    SuccessorGcd(f.num, d, q, r);
    MakeFractionReduced(d, d * q + d - r);
    MakeFraction(f.den, f.den * (f.num / f.den) + f.den - f.num % f.den)
  }

  /** The step keeps the gcd: gcd(d, d*q + d - r) == gcd(n, d) for
      n = d*q + r. */
  lemma SuccessorGcd(n: nat, d: nat, q: nat, r: nat)
    requires d >= 1 && r < d && n == d * q + r
    ensures d * q + d - r >= 1 && Gcd(d, d * q + d - r) == Gcd(n, d)
  {
    MulMono(d, q, 0);
    assert d * q + d - r == (d - r) + q * d;
    GcdAddMultiple(d - r, d, q);
    GcdAddMultiple(r, d, q);
    GcdReflect(r, d);
    GcdComm(d, d * q + d - r);
  }

  /** The pair handed to the constructor is already in lowest terms, so the
      new numerator is the old denominator. */
  lemma StepUnreduced(f: Fraction)
    requires WellFormed(f)
    ensures Step(f) == Fraction(f.den, f.den * (f.num / f.den) + f.den - f.num % f.den)
    ensures Step(f).num == f.den
  {
    var d, q, r := f.den, f.num / f.den, f.num % f.den;
    assert q >= 0 by {
      if q < 0 {
        MulBounds(d, q);
      }
    }
    SuccessorGcd(f.num, d, q, r);
    MakeFractionReduced(d, d * q + d - r);
  }

  /** The step is x -> 1 / (2 floor(x) + 1 - x): with x = n/d and s the new
      fraction, s.den / s.num == (2 floor(x) d + d - n) / d. */
  lemma StepFormula(f: Fraction)
    requires WellFormed(f)
    ensures Step(f).den * f.den == Step(f).num * (2 * (f.num / f.den) * f.den + f.den - f.num)
  {
    StepUnreduced(f);
    var d, q, r := f.den, f.num / f.den, f.num % f.den;
    assert f.num == d * q + r;
    assert 2 * q * d + d - f.num == d * q + d - r;
  }

  /** Recovers the fraction a step came from: with s = c/e, the old
      denominator is c, floor(x) is (e - 1) / c and the old remainder
      c - 1 - (e - 1) % c. */
  function Predecessor(s: Fraction): (f: Fraction)
    requires s.num >= 1 && s.den >= 1
    ensures f.den == s.num
  {
    var d := s.num;
    var q := (s.den - 1) / d;
    var r := d - 1 - (s.den - 1) % d;
    Fraction(d * q + r, d)
  }

  /** Predecessor undoes Step. */
  lemma PredecessorOfStep(f: Fraction)
    requires WellFormed(f)
    ensures Predecessor(Step(f)) == f
  {
    StepUnreduced(f);
    var d, q, r := f.den, f.num / f.den, f.num % f.den;
    var s := Step(f);
    assert s.den - 1 == d * q + (d - r - 1);
    DivModUnique(s.den - 1, d, q, d - r - 1);
  }

  /** Distinct fractions have distinct successors. */
  lemma StepInjective(f: Fraction, g: Fraction)
    requires WellFormed(f) && WellFormed(g) && Step(f) == Step(g)
    ensures f == g
  {
    PredecessorOfStep(f);
    PredecessorOfStep(g);
  }

  /** The value after n steps from start. */
  function Iterate(start: Fraction, n: nat): (f: Fraction)
    requires WellFormed(start)
    ensures WellFormed(f)
  {
    if n == 0 then start else Step(Iterate(start, n - 1))
  }

  /** After at least one step the numerator is positive, so 0/1 never recurs. */
  lemma IteratePositive(start: Fraction, n: nat)
    requires WellFormed(start) && n >= 1
    ensures Iterate(start, n).num >= 1
  {
    StepUnreduced(Iterate(start, n - 1));
  }

  /** From 0/1 no value repeats. */
  lemma {:induction false} IterateDistinct(i: nat, j: nat)
    requires i < j
    ensures Iterate(Fraction(0, 1), i) != Iterate(Fraction(0, 1), j)
  {
    var z := Fraction(0, 1);
    IteratePositive(z, j);
    if i > 0 {
      IterateDistinct(i - 1, j - 1);
      if Iterate(z, i) == Iterate(z, j) {
        StepInjective(Iterate(z, i - 1), Iterate(z, j - 1));
      }
    }
  }

  /** The first seven values yielded from 0/1 are the start of the
      Calkin-Wilf sequence. */
  lemma CalkinWilfStart()
    ensures Iterate(Fraction(0, 1), 1) == Fraction(1, 1)
    ensures Iterate(Fraction(0, 1), 2) == Fraction(1, 2)
    ensures Iterate(Fraction(0, 1), 3) == Fraction(2, 1)
    ensures Iterate(Fraction(0, 1), 4) == Fraction(1, 3)
    ensures Iterate(Fraction(0, 1), 5) == Fraction(3, 2)
    ensures Iterate(Fraction(0, 1), 6) == Fraction(2, 3)
    ensures Iterate(Fraction(0, 1), 7) == Fraction(3, 1)
  {
    var z := Fraction(0, 1);
    StepValue(Iterate(z, 0), 0, 1, 0, 1, 1);
    StepValue(Iterate(z, 1), 1, 1, 1, 1, 2);
    StepValue(Iterate(z, 2), 1, 2, 0, 2, 1);
    StepValue(Iterate(z, 3), 2, 1, 2, 1, 3);
    StepValue(Iterate(z, 4), 1, 3, 0, 3, 2);
    StepValue(Iterate(z, 5), 3, 2, 1, 2, 3);
    StepValue(Iterate(z, 6), 2, 3, 0, 3, 1);
  }

  /** One concrete step: from n/d with floor q, to c/e. */
  lemma StepValue(f: Fraction, n: int, d: int, q: int, c: int, e: int)
    requires WellFormed(f) && f == Fraction(n, d)
    requires 0 <= n - d * q < d && c == d && e == d * q + d - (n - d * q)
    ensures Step(f) == Fraction(c, e)
  {
    StepUnreduced(f);
    DivModUnique(n, d, q, n - d * q);
  }

  /** The generator object of `rationals(now)`: the current fraction. */
  class RationalEnumerator {
    var now: Fraction
    /** The argument the generator was started from. */
    ghost const start: Fraction
    /** The values yielded so far. */
    ghost var produced: seq<Fraction>

    ghost predicate Valid()
      reads this
    {
      && WellFormed(start)
      && now == Iterate(start, |produced|)
      && forall i :: 0 <= i < |produced| ==> produced[i] == Iterate(start, i + 1)
    }

    /** `rationals()`, started from the default 0/1. */
    constructor ()
      ensures Valid() && start == Fraction(0, 1) && produced == []
    {
      now := Fraction(0, 1);
      start := Fraction(0, 1);
      produced := [];
    }

    /** `rationals(now)` for a non-negative starting fraction. */
    constructor FromStart(now: Fraction)
      requires WellFormed(now)
      ensures Valid() && start == now && produced == []
    {
      this.now := now;
      start := now;
      produced := [];
    }

    /** Runs the loop body once and yields the new value. From 0/1 the new
        value differs from every value yielded before. */
    method Next() returns (x: Fraction)
      requires Valid()
      modifies this
      ensures Valid()
      ensures x == Iterate(start, |old(produced)| + 1) && produced == old(produced) + [x]
      ensures start == Fraction(0, 1) ==> forall i :: 0 <= i < |old(produced)| ==> old(produced)[i] != x
    {
      var a := now.den;
      var b := now.den * (now.num / now.den) + now.den - now.num % now.den;
      StepUnreduced(now);
      now := MakeFraction(a, b);
      x := now;
      produced := produced + [x];
      if start == Fraction(0, 1) {
        forall i | 0 <= i < |old(produced)|
          ensures old(produced)[i] != x
        {
          IterateDistinct(i + 1, |old(produced)| + 1);
        }
      }
    }
  }
}
