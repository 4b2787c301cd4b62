/** `coprime_pairs(n, a, b)` of skynet/math/sequences.py: a depth-first,
    pre-order walk of the tree whose children of (a, b) are (a*k + b, a) for
    k = 1, 2, ... while a*k + b <= n. From (1, 1) it lists every pair of
    coprime numbers up to n exactly once (Euclid's algorithm run backwards). */
module CoprimePairs {
  import opened Arithmetic
  import opened GcdTheory

  /** A root whose first child already has a second component of at least 1
      lies one level above the ordinary nodes, which all have b >= 1. */
  function Level(b: int): nat {
    if b >= 1 then 0 else 1
  }

  /** The pairs the generator yields from (a, b), in order. The walk
      terminates when a >= 1 and a + b >= 1: every child then has a positive
      second component and a first component above its parent's. */
  function Pairs(n: int, a: int, b: int): (ps: seq<(int, int)>)
    requires a >= 1 && a + b >= 1
    ensures |ps| >= 1 && ps[0] == (a, b)
    ensures forall p :: p in ps[1..] ==> a + b <= p.0 <= n && p.1 >= 1
    decreases Level(b), n - a, 1, 0
  {
    [(a, b)] + Subtrees(n, a, b, 1)
  }

  /** The pairs yielded by the rounds k, k+1, ... of the loop at (a, b). */
  function Subtrees(n: int, a: int, b: int, k: int): (ps: seq<(int, int)>)
    requires a >= 1 && a + b >= 1 && k >= 1
    ensures forall p :: p in ps ==> a * k + b <= p.0 <= n && p.1 >= 1
    decreases Level(b), n - a, 0, n - a * k - b
  {
    if a * k + b <= n then
      MulMono(a, k, 1);
      var first := Pairs(n, a * k + b, a);
      assert forall p :: p in first ==> p == first[0] || p in first[1..];
      Pairs(n, a * k + b, a) + Subtrees(n, a, b, k + 1)
    else []
  }

  /** The generator body: yield (a, b), then the walk of each child while
      a*k + b <= n. */
  method CoprimePairsOf(n: int, a: int, b: int) returns (out: seq<(int, int)>)
    requires a >= 1 && a + b >= 1
    ensures out == Pairs(n, a, b)
    decreases Level(b), n - a
  {
    out := [(a, b)];
    var k := 1;
    while a * k + b <= n
      invariant k >= 1
      invariant out + Subtrees(n, a, b, k) == Pairs(n, a, b)
      decreases n - a * k - b
    {
      MulMono(a, k, 1);
      var sub := CoprimePairsOf(n, a * k + b, a);
      out := out + sub;
      k := k + 1;
    }
  }

  /** Every pair from (a, b) is (a, b) itself or a pair (x, y) with
      1 <= y < x, a < x <= n and gcd(x, y) == gcd(a, b); (a, b) comes first. */
  lemma {:induction false} PairsSound(n: int, a: int, b: int)
    requires a >= 1 && b >= 1
    ensures |Pairs(n, a, b)| >= 1 && Pairs(n, a, b)[0] == (a, b)
    ensures forall p :: p in Pairs(n, a, b) ==>
      p == (a, b) || (a < p.0 <= n && 1 <= p.1 < p.0 && Gcd(p.0, p.1) == Gcd(a, b))
    decreases n - a, 1, 0
  {
    SubtreesSound(n, a, b, 1);
  }

  lemma {:induction false} SubtreesSound(n: int, a: int, b: int, k: int)
    requires a >= 1 && b >= 1 && k >= 1
    ensures forall p :: p in Subtrees(n, a, b, k) ==>
      a < p.0 <= n && 1 <= p.1 < p.0 && Gcd(p.0, p.1) == Gcd(a, b)
    decreases n - a, 0, n - a * k - b
  {
    if a * k + b <= n {
      var e := a * k + b;
      MulMono(a, k, 1);
      PairsSound(n, e, a);
      SubtreesSound(n, a, b, k + 1);
      assert Gcd(e, a) == Gcd(a, b) by {
        assert e == b + k * a;
        GcdAddMultiple(b, a, k);
        GcdComm(b, a);
      }
    }
  }

  /** Follows Euclid's steps (x, y) -> (y, x % y) down from (x, y) and
      returns the first component of the first pair whose second component
      is d, or 0 when there is none. */
  function Top(x: int, y: int, d: int): int
    decreases x
  {
    if y == d then x
    else if 1 <= y < x then Top(y, x % y, d)
    else 0
  }

  /** The second components along Euclid's steps decrease, so a chain that
      meets d starts at or above d. */
  lemma {:induction false} TopAbove(x: int, y: int, d: int)
    requires Top(x, y, d) >= 1
    ensures y >= d
    decreases x
  {
    if y != d {
      TopAbove(y, x % y, d);
    }
  }

  /** If the chain from (x, y) meets (e, c) with e > c and e % c == d < c,
      its next step is (c, d). */
  lemma {:induction false} TopStep(x: int, y: int, c: int, d: int)
    requires 1 <= d < c && Top(x, y, c) > c && Top(x, y, c) % c == d
    ensures Top(x, y, d) == c
    decreases x
  {
    if y != c {
      TopAbove(x, y, c);
      TopStep(y, x % y, c, d);
    }
  }

  /** Every pair below (c, d), for d < c, reaches (c, d) by Euclid's steps. */
  lemma {:induction false} PairsTop(n: int, c: int, d: int)
    requires 1 <= d < c
    ensures forall p :: p in Pairs(n, c, d) ==> Top(p.0, p.1, d) == c
    decreases n - c, 1, 0
  {
    SubtreesTop(n, c, d, 1);
  }

  lemma {:induction false} SubtreesTop(n: int, c: int, d: int, k: int)
    requires 1 <= d < c && k >= 1
    ensures forall p :: p in Subtrees(n, c, d, k) ==> Top(p.0, p.1, d) == c
    decreases n - c, 0, n - c * k - d
  {
    if c * k + d <= n {
      var e := c * k + d;
      MulMono(c, k, 1);
      DivModUnique(e, c, k, d);
      PairsTop(n, e, c);
      forall p | p in Pairs(n, e, c)
        ensures Top(p.0, p.1, d) == c
      {
        TopStep(p.0, p.1, c, d);
      }
      SubtreesTop(n, c, d, k + 1);
    }
  }

  /** The rounds k, k+1, ... at (a, b) produce pairs that reach (e, a) for
      some e >= a*k + b. */
  lemma {:induction false} SubtreesTopAtLeast(n: int, a: int, b: int, k: int)
    requires a >= 1 && b >= 1 && k >= 1
    ensures forall p :: p in Subtrees(n, a, b, k) ==> Top(p.0, p.1, a) >= a * k + b
    decreases n - a * k - b
  {
    if a * k + b <= n {
      MulMono(a, k, 1);
      PairsTop(n, a * k + b, a);
      SubtreesTopAtLeast(n, a, b, k + 1);
    }
  }

  predicate Distinct(s: seq<(int, int)>) {
    forall i, j :: 0 <= i < j < |s| ==> s[i] != s[j]
  }

  lemma DistinctConcat(s: seq<(int, int)>, t: seq<(int, int)>)
    requires Distinct(s) && Distinct(t)
    requires forall p :: p in s ==> p !in t
    ensures Distinct(s + t)
  {
    forall i, j | 0 <= i < j < |s + t|
      ensures (s + t)[i] != (s + t)[j]
    {
      if i < |s| && j >= |s| {
        assert (s + t)[i] in s;
        assert (s + t)[j] == t[j - |s|];
      }
    }
  }

  /** No pair is yielded twice. */
  lemma {:induction false} PairsDistinct(n: int, a: int, b: int)
    requires a >= 1 && b >= 1
    ensures Distinct(Pairs(n, a, b))
    decreases n - a, 1, 0
  {
    SubtreesDistinct(n, a, b, 1);
    SubtreesSound(n, a, b, 1);
    DistinctConcat([(a, b)], Subtrees(n, a, b, 1));
  }

  lemma {:induction false} SubtreesDistinct(n: int, a: int, b: int, k: int)
    requires a >= 1 && b >= 1 && k >= 1
    ensures Distinct(Subtrees(n, a, b, k))
    decreases n - a, 0, n - a * k - b
  {
    if a * k + b <= n {
      var e := a * k + b;
      MulMono(a, k, 1);
      PairsDistinct(n, e, a);
      SubtreesDistinct(n, a, b, k + 1);
      PairsTop(n, e, a);
      SubtreesTopAtLeast(n, a, b, k + 1);
      DistinctConcat(Pairs(n, e, a), Subtrees(n, a, b, k + 1));
    }
  }

  /** The walk from a child (a*j + b, a) with j >= k is part of rounds k, k+1, .... */
  lemma {:induction false} ChildInSubtrees(n: int, a: int, b: int, k: int, j: int)
    requires a >= 1 && a + b >= 1 && 1 <= k <= j && a * j + b <= n
    ensures forall p :: p in Pairs(n, a * j + b, a) ==> p in Subtrees(n, a, b, k)
    decreases j - k
  {
    MulMono(a, k, j);
    if k < j {
      ChildInSubtrees(n, a, b, k + 1, j);
    }
  }

  /** The walk from (a, b) contains, with each pair (c, d), every child
      (c*k + d, c) within the bound n. */
  lemma {:induction false} PairsClosed(n: int, a: int, b: int, c: int, d: int, k: int)
    requires a >= 1 && b >= 1 && k >= 1
    requires (c, d) in Pairs(n, a, b) && c * k + d <= n
    ensures c >= 1 && (c * k + d, c) in Pairs(n, a, b)
    decreases n - a, 1, 0
  {
    PairsSound(n, a, b);
    if (c, d) == (a, b) {
      ChildInSubtrees(n, a, b, 1, k);
      assert (c * k + d, c) in Pairs(n, c * k + d, c);
    } else {
      SubtreesClosed(n, a, b, 1, c, d, k);
    }
  }

  lemma {:induction false} SubtreesClosed(n: int, a: int, b: int, j: int, c: int, d: int, k: int)
    requires a >= 1 && b >= 1 && j >= 1 && k >= 1
    requires (c, d) in Subtrees(n, a, b, j) && c * k + d <= n
    ensures c >= 1 && (c * k + d, c) in Subtrees(n, a, b, j)
    decreases n - a, 0, n - a * j - b
  {
    var e := a * j + b;
    MulMono(a, j, 1);
    if (c, d) in Pairs(n, e, a) {
      PairsClosed(n, e, a, c, d, k);
    } else {
      SubtreesClosed(n, a, b, j + 1, c, d, k);
    }
  }

  /** From (1, 1) every coprime pair 1 <= y < x <= n is yielded. */
  lemma {:induction false} PairsComplete(n: int, x: int, y: int)
    requires 1 <= y < x <= n && Gcd(x, y) == 1
    ensures (x, y) in Pairs(n, 1, 1)
    decreases x
  {
    if y == 1 {
      ChildInSubtrees(n, 1, 1, 1, x - 1);
    } else {
      var q, r := x / y, x % y;
      EuclidBack(x, y);
      PairsComplete(n, y, r);
      PairsClosed(n, 1, 1, y, r, q);
    }
  }

  /** One step of Euclid's algorithm on a coprime pair with y >= 2: (x, y) is
      the child (y * q + r, y) of the coprime pair (y, r) with 1 <= r < y. */
  lemma EuclidBack(x: int, y: int)
    requires 2 <= y < x && Gcd(x, y) == 1
    ensures 1 <= x % y < y && Gcd(y, x % y) == 1
    ensures x / y >= 1 && y * (x / y) + x % y == x
  {
    CoprimeRemainder(x, y);
    QuotientPositive(x, y, x / y, x % y);
  }

  lemma CoprimeRemainder(x: nat, y: nat)
    requires 2 <= y && Gcd(x, y) == 1
    ensures x % y >= 1 && Gcd(y, x % y) == 1
  {
  }

  lemma QuotientPositive(x: int, y: int, q: int, r: int)
    requires x == y * q + r && 0 <= r < y < x
    ensures q >= 1
  {
    if q < 1 {
      MulMono(y, q, 0);
    }
  }

  /** From (1, 1): a pair is yielded exactly when it is (1, 1) or a coprime
      pair 1 <= y < x <= n; and each such pair is yielded once. */
  lemma CoprimePairsExact(n: int, x: int, y: int)
    ensures (x, y) in Pairs(n, 1, 1) <==>
      (x, y) == (1, 1) || (1 <= y < x <= n && Gcd(x, y) == 1)
    ensures Distinct(Pairs(n, 1, 1))
  {
    PairsSound(n, 1, 1);
    PairsDistinct(n, 1, 1);
    if 1 <= y < x <= n && Gcd(x, y) == 1 {
      PairsComplete(n, x, y);
    }
  }
}
