/** The greatest common divisor by Euclid's algorithm, used as the reference
    for "lowest terms" and "coprime". */
module GcdTheory {
  import opened Arithmetic

  /** gcd(a, b) by successive remainders; Gcd(0, 0) == 0. */
  function Gcd(a: nat, b: nat): nat
    decreases b
  {
    if b == 0 then a else Gcd(b, a % b)
  }

  lemma GcdComm(a: nat, b: nat)
    ensures Gcd(a, b) == Gcd(b, a)
  {
    if a < b {
      DivModUnique(a, b, 0, a);
    } else if b < a && b > 0 {
      DivModUnique(b, a, 0, b);
    } else if b == 0 && a > 0 {
      DivModUnique(0, a, 0, 0);
    }
  }

  /** Adding a multiple of b to a does not change gcd(a, b). */
  lemma GcdAddMultiple(a: nat, b: nat, k: nat)
    requires b > 0
    ensures Gcd(a + k * b, b) == Gcd(a, b)
  {
    DivModUnique(a + k * b, b, a / b + k, a % b);
    GcdComm(a + k * b, b);
    GcdComm(a, b);
  }

  lemma {:induction false} GcdPositive(a: nat, b: nat)
    requires a > 0 || b > 0
    ensures Gcd(a, b) > 0
    decreases b
  {
    if b > 0 {
      GcdPositive(b, a % b);
    }
  }

  /** Gcd(a, b) divides both a and b. */
  lemma {:induction false} GcdDivides(a: nat, b: nat)
    requires a > 0 || b > 0
    ensures Gcd(a, b) > 0 && a % Gcd(a, b) == 0 && b % Gcd(a, b) == 0
    decreases b
  {
    GcdPositive(a, b);
    var g := Gcd(a, b);
    if b == 0 {
      MulMod(a, 1);
      MulMod(a, 0);
    } else {
      GcdDivides(b, a % b);
      var u, v := b / g, (a % b) / g;
      assert b == g * u && a % b == g * v;
      assert a == b * (a / b) + a % b;
      assert a == g * (u * (a / b) + v);
      MulMod(g, u * (a / b) + v);
    }
  }

  /** Bezout's identity: gcd(a, b) is an integer combination of a and b. */
  lemma {:induction false} Bezout(a: nat, b: nat) returns (x: int, y: int)
    ensures a * x + b * y == Gcd(a, b)
    decreases b
  {
    if b == 0 {
      x, y := 1, 0;
    } else {
      var x', y' := Bezout(b, a % b);
      var f := a / b;
      assert a % b == a - b * f;
      x, y := y', x' - f * y';
      calc {
        a * x + b * y;
        a * y' + b * x' - b * f * y';
        b * x' + (a - b * f) * y';
        Gcd(b, a % b);
      }
    }
  }

  /** Every common divisor of a and b divides Gcd(a, b). */
  lemma CommonDivisorDividesGcd(a: nat, b: nat, d: int)
    requires d > 0 && a % d == 0 && b % d == 0
    ensures Gcd(a, b) % d == 0
  {
    var x, y := Bezout(a, b);
    MultipleTimes(a, x, d);
    MultipleTimes(b, y, d);
    AddMultiple(a * x, d, (b * y) / d);
  }

  /** A common divisor of two coprime numbers is 1. */
  lemma CoprimeDivisor(a: nat, b: nat, d: int)
    requires Gcd(a, b) == 1 && d > 0 && a % d == 0 && b % d == 0
    ensures d == 1
  {
    CommonDivisorDividesGcd(a, b, d);
    MultipleAtLeast(1, d);
  }

  /** gcd(d - r, d) == gcd(r, d) for 0 <= r < d: each divides the other. */
  lemma GcdReflect(r: nat, d: nat)
    requires r < d
    ensures Gcd(d - r, d) == Gcd(r, d)
  {
    GcdDivides(d - r, d);
    GcdDivides(r, d);
    var g1, g2 := Gcd(d - r, d), Gcd(r, d);
    SubtractMultiple(d, d - r, g1);
    CommonDivisorDividesGcd(r, d, g1);
    SubtractMultiple(d, r, g2);
    CommonDivisorDividesGcd(d - r, d, g2);
    MultipleAtLeast(g2, g1);
    MultipleAtLeast(g1, g2);
  }
}
