/** Polygonal numbers from skynet/math/sequences.py: the closed form
    `polygonal_number(n, r)`, the generator `polygonal_numbers(r)` that adds
    k * r - 2 * k + 1 at step k, and their bindings for r = 3, 5 and 6. */
module Polygonal {
  import opened Arithmetic

  /** n(n-1) is even for every integer n. */
  lemma ConsecutiveProductEven(n: int)
    ensures (n * (n - 1)) % 2 == 0
  {
    var h := n / 2;
    if n % 2 == 0 {
      assert n * (n - 1) == 2 * (h * (n - 1));
      MulMod(2, h * (n - 1));
    } else {
      assert n - 1 == 2 * h;
      assert n * (n - 1) == 2 * (n * h);
      MulMod(2, n * h);
    }
  }

  /** The numerator of `polygonal_number` is (r - 2) n(n-1) + 2n. */
  lemma NumeratorSplit(n: int, r: int)
    ensures n * ((n - 1) * r - 2 * (n - 2)) == (r - 2) * (n * (n - 1)) + 2 * n
  {
    assert (n - 1) * r - 2 * (n - 2) == (r - 2) * (n - 1) + 2;
    assert n * ((r - 2) * (n - 1) + 2) == (r - 2) * (n * (n - 1)) + 2 * n;
  }

  /** `polygonal_number(n, r)`: the floor division by 2 is exact, and the
      result is n plus r - 2 times the (n-1)-th triangular number n(n-1)/2. */
  function PolygonalNumber(n: int, r: int): (t: int)
    ensures 2 * t == n * ((n - 1) * r - 2 * (n - 2))
    ensures t == n + (r - 2) * (n * (n - 1) / 2)
  {
    var h := n * (n - 1) / 2;
    ConsecutiveProductEven(n);
    NumeratorSplit(n, r);
    assert n * ((n - 1) * r - 2 * (n - 2)) == 2 * (n + (r - 2) * h);
    DivModUnique(n * ((n - 1) * r - 2 * (n - 2)), 2, n + (r - 2) * h, 0);
    n * ((n - 1) * r - 2 * (n - 2)) / 2
  }

  /** The first terms of every r-gonal sequence: 0, 1, r. */
  lemma PolygonalStart(r: int)
    ensures PolygonalNumber(0, r) == 0
    ensures PolygonalNumber(1, r) == 1
    ensures PolygonalNumber(2, r) == r
  {
  }

  /** The increment the generator adds at step k takes the k-th r-gonal number
      to the (k+1)-th. */
  lemma PolygonalStep(k: int, r: int)
    ensures PolygonalNumber(k + 1, r) == PolygonalNumber(k, r) + (k * r - 2 * k + 1)
  {
    var h0, h1 := k * (k - 1) / 2, (k + 1) * k / 2;
    ConsecutiveProductEven(k);
    ConsecutiveProductEven(k + 1);
    assert 2 * h1 == 2 * h0 + 2 * k;
    assert h1 == h0 + k;
    assert (r - 2) * h1 == (r - 2) * h0 + (r - 2) * k;
  }

  /** `triangular_number`: n(n+1)/2. */
  function TriangularNumber(n: int): (t: int)
    ensures 2 * t == n * (n + 1)
  {
    PolygonalNumber(n, 3)
  }

  /** `pentagonal_number`: n(3n-1)/2. */
  function PentagonalNumber(n: int): (t: int)
    ensures 2 * t == n * (3 * n - 1)
  {
    PolygonalNumber(n, 5)
  }

  /** `hexagonal_number`: n(2n-1). */
  function HexagonalNumber(n: int): (t: int)
    ensures t == n * (2 * n - 1)
  {
    PolygonalNumber(n, 6)
  }

  /** Every hexagonal number is a triangular number: H(n) = T(2n-1). */
  lemma HexagonalIsTriangular(n: int)
    ensures HexagonalNumber(n) == TriangularNumber(2 * n - 1)
  {
    var t := TriangularNumber(2 * n - 1);
    assert 2 * t == (2 * n - 1) * (2 * n);
    assert (2 * n - 1) * (2 * n) == 2 * (n * (2 * n - 1));
  }

  /** `polygonal_numbers(r)`: yields term, then adds k * r - 2 * k + 1 and
      moves to the next k. */
  class PolygonalGenerator {
    const r: int
    var term: int
    var k: nat
    /** The values yielded so far. */
    ghost var produced: seq<int>

    ghost predicate Valid()
      reads this
    {
      && k == |produced|
      && term == PolygonalNumber(k, r)
      && forall i :: 0 <= i < |produced| ==> produced[i] == PolygonalNumber(i, r)
    }

    constructor (r: int)
      ensures Valid() && this.r == r && produced == []
    {
      this.r := r;
      term := 0;
      k := 0;
      produced := [];
    }

    /** Yields the k-th r-gonal number and advances. */
    method Next() returns (x: int)
      requires Valid()
      modifies this
      ensures Valid()
      ensures x == PolygonalNumber(|old(produced)|, r)
      ensures produced == old(produced) + [x]
    {
      x := term;
      PolygonalStep(k, r);
      var increment := k * r - 2 * k + 1;
      term := term + increment;
      k := k + 1;
      produced := produced + [x];
    }
  }

  /** `triangular_numbers()`. */
  method TriangularNumbers() returns (g: PolygonalGenerator)
    ensures fresh(g) && g.Valid() && g.r == 3 && g.produced == []
  {
    g := new PolygonalGenerator(3);
  }

  /** `pentagonal_numbers()`. */
  method PentagonalNumbers() returns (g: PolygonalGenerator)
    ensures fresh(g) && g.Valid() && g.r == 5 && g.produced == []
  {
    g := new PolygonalGenerator(5);
  }

  /** `hexagonal_numbers()`. */
  method HexagonalNumbers() returns (g: PolygonalGenerator)
    ensures fresh(g) && g.Valid() && g.r == 6 && g.produced == []
  {
    g := new PolygonalGenerator(6);
  }
}
