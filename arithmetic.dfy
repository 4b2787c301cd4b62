/** Facts about Euclidean division and an exact integer square root.
    Python's `//` and `%` agree with Dafny's on the non-negative divisors used here. */
module Arithmetic {

  /** Euclidean division is determined by any decomposition x == d*q + r with 0 <= r < d. */
  lemma DivModUnique(x: int, d: int, q: int, r: int)
    requires d > 0 && 0 <= r < d && x == d * q + r
    ensures x / d == q && x % d == r
  {
    var q', r' := x / d, x % d;
    assert d * (q - q') == r' - r;
    MulBounds(d, q - q');
  }

  /** A non-zero multiple of d is at least d in absolute value. */
  lemma {:induction false} MulBounds(d: int, k: int)
    requires d > 0
    ensures k >= 1 ==> d * k >= d
    ensures k <= -1 ==> d * k <= -d
    decreases if k < 0 then -k else k
  {
    if k > 1 {
      MulBounds(d, k - 1);
      assert d * k == d * (k - 1) + d;
    } else if k < -1 {
      MulBounds(d, k + 1);
      assert d * k == d * (k + 1) - d;
    }
  }

  /** A product is a multiple of each factor. */
  lemma MulMod(d: int, t: int)
    requires d > 0
    ensures (d * t) % d == 0 && (t * d) % d == 0 && (d * t) / d == t
  {
    DivModUnique(d * t, d, t, 0);
  }

  /** A multiple of d is d times its quotient. */
  lemma ModZero(x: int, d: int)
    requires d > 0 && x % d == 0
    ensures x == d * (x / d)
  {
  }

  /** Divisibility is transitive. */
  lemma DividesTrans(x: int, y: int, d: int)
    requires d > 0 && y > 0 && x % y == 0 && y % d == 0
    ensures x % d == 0
  {
    var a, b := x / y, y / d;
    assert x == y * a;
    assert y == d * b;
    assert x == d * (b * a);
    MulMod(d, b * a);
  }

  /** Adding a multiple of d to a multiple of d gives a multiple of d. */
  lemma AddMultiple(x: int, d: int, t: int)
    requires d > 0 && x % d == 0
    ensures (x + d * t) % d == 0
  {
    var a := x / d;
    assert x + d * t == d * (a + t);
    MulMod(d, a + t);
  }

  /** The difference of two multiples of d is a multiple of d. */
  lemma SubtractMultiple(x: int, y: int, d: int)
    requires d > 0 && x % d == 0 && y % d == 0
    ensures (x - y) % d == 0
  {
    var t := y / d;
    assert y == d * t;
    AddMultiple(x, d, -t);
  }

  /** A multiple of a multiple of d is a multiple of d. */
  lemma MultipleTimes(a: int, x: int, d: int)
    requires d > 0 && a % d == 0
    ensures (a * x) % d == 0 && a * x == d * ((a * x) / d)
  {
    var u := a / d;
    assert a * x == d * (u * x) by {
      assert a == d * u;
    }
    MulMod(d, u * x);
  }

  /** Scaling a multiple of h by g gives a multiple of g * h. */
  lemma ScaledMultiple(g: int, u: int, h: int)
    requires g > 0 && h > 0 && u % h == 0
    ensures g * h > 0 && (g * u) % (g * h) == 0
  {
    var s := u / h;
    assert u == h * s;
    assert g * u == (g * h) * s;
    MulBounds(g, h);
    MulMod(g * h, s);
  }

  /** Between two consecutive multiples of d there is no multiple of d. */
  lemma NoMultipleBetween(a: int, y: int, d: int)
    requires d > 0 && a % d == 0 && a < y < a + d
    ensures y % d != 0
  {
    DivModUnique(y, d, a / d, y - a);
  }

  /** A positive multiple of d is at least d. */
  lemma MultipleAtLeast(x: int, d: int)
    requires d > 0 && x > 0 && x % d == 0
    ensures x >= d
  {
    var t := x / d;
    assert x == d * t;
    MulBounds(d, t);
  }

  /** The product of two odd numbers is odd. */
  lemma OddProduct(a: int, b: int)
    requires a % 2 == 1 && b % 2 == 1
    ensures (a * b) % 2 == 1
  {
    var s, t := a / 2, b / 2;
    assert a == 2 * s + 1 && b == 2 * t + 1;
    assert a * b == 2 * (2 * s * t + s + t) + 1;
    DivModUnique(a * b, 2, 2 * s * t + s + t, 1);
  }

  /** Adding an odd number flips parity. */
  lemma OddSum(x: int, p: int)
    requires p % 2 == 1
    ensures (x + p) % 2 == 1 - x % 2
  {
    DivModUnique(x + p, 2, x / 2 + p / 2 + x % 2, 1 - x % 2);
  }

  /** int(n ** 0.5) computed exactly: the largest r with r * r <= n. */
  function Isqrt(n: nat): (r: nat)
    ensures r * r <= n < (r + 1) * (r + 1)
  {
    if n == 0 then 0
    else
      var s := Isqrt(n - 1);
      if (s + 1) * (s + 1) <= n then s + 1 else s
  }

  /** Every number whose square is at most n is at most Isqrt(n). */
  lemma SquareBelow(f: int, n: nat)
    requires 0 <= f && f * f <= n
    ensures f <= Isqrt(n)
  {
    var s := Isqrt(n);
    MulMono(s + 1, f, s + 1);
    MulMono(f, f, s + 1);
  }

  /** Multiplication by a non-negative number is monotonic. */
  lemma MulMono(a: int, b: int, c: int)
    requires a >= 0
    ensures b <= c ==> a * b <= a * c
    ensures b >= c ==> a * b >= a * c
  {
    assert a * c - a * b == a * (c - b);
  }
}
