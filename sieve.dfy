/** The two array sieves of skynet/math/sequences.py: `primes_until`, an
    odd-only sieve of Eratosthenes in which index i stands for 2i + 3, and
    `primes_between`, a segmented sieve in which index k stands for m + k.
    Both are proved to return exactly the primes of their range, ascending
    (PrimesIn). */
module Sieve {
  import opened Arithmetic
  import opened Primality

  /** The number of indices start, start + step, start + 2 * step, ... that
      lie below stop: the length of the slice `a[start:stop:step]` when
      0 <= start and stop <= len(a). */
  function SliceLength(start: int, stop: int, step: int): nat
    requires step > 0
    decreases stop - start
  {
    if start < stop then 1 + SliceLength(start + step, stop, step) else 0
  }

  /** The slice length in closed form: ceil((stop - start) / step), or 0. */
  lemma {:induction false} SliceLengthFormula(start: int, stop: int, step: int)
    requires step > 0
    ensures SliceLength(start, stop, step) == if start < stop then (stop - start - 1) / step + 1 else 0
    decreases stop - start
  {
    if start < stop {
      var q := (stop - start - 1) / step;
      DivModUnique(stop - start - 1, step, q, (stop - start - 1) % step);
      SliceLengthFormula(start + step, stop, step);
      if start + step < stop {
        DivModUnique(stop - start - step - 1, step, q - 1, (stop - start - 1) % step);
      } else {
        DivModUnique(stop - start - 1, step, 0, stop - start - 1);
      }
    }
  }

  /** The slice assignment `a[start:stop:step] = [False] * count`: clears the
      entries start, start + step, start + 2 * step, ... that lie below stop.
      Python accepts the assignment only when the list, which is empty for a
      negative count, is exactly as long as the slice. */
  method MarkMultiples(a: array<bool>, start: int, step: int, stop: int, count: int)
    requires 0 <= start && step > 0 && stop <= a.Length
    requires (if count < 0 then 0 else count) == SliceLength(start, stop, step)
    modifies a
    ensures forall j :: 0 <= j < a.Length ==>
      a[j] == (old(a[j]) && !(start <= j < stop && (j - start) % step == 0))
  {
    var k := start;
    while k < stop
      invariant start <= k && (k - start) % step == 0
      invariant forall j :: 0 <= j < a.Length ==>
        a[j] == (old(a[j]) && !(start <= j < k && j < stop && (j - start) % step == 0))
      decreases stop - k
    {
      a[k] := false;
      forall u | k - start < u < k - start + step
        ensures u % step != 0
      {
        NoMultipleBetween(k - start, u, step);
      }
      AddMultiple(k - start, step, 1);
      k := k + step;
    }
  }

  // ---------------------------------------------------------------- primes_until

  /** What an entry of the odd sieve records once the passes for every odd
      base below b have run: no odd d in [3, b) with d * d <= v divides v. */
  ghost predicate NoOddFactorBelow(v: int, b: int) {
    forall d :: 3 <= d < b && d % 2 == 1 && d * d <= v ==> v % d != 0
  }

  /** The pass for an odd base p adds exactly the condition "p does not divide
      v, or v < p * p". */
  lemma NoOddFactorStep(v: int, p: int)
    requires p >= 3 && p % 2 == 1
    ensures NoOddFactorBelow(v, p + 2) <==> NoOddFactorBelow(v, p) && !(p * p <= v && v % p == 0)
  {
    if NoOddFactorBelow(v, p) && !(p * p <= v && v % p == 0) {
      forall d | 3 <= d < p + 2 && d % 2 == 1 && d * d <= v
        ensures v % d != 0
      {
        if d != p {
          assert d < p;
        }
      }
    }
  }

  /** Skipping a base p that is itself crossed out loses nothing: every value
      it would clear was already cleared by a smaller odd factor of p. */
  lemma SkippedPassClearsNothing(v: int, p: int)
    requires p >= 3 && !NoOddFactorBelow(p, p)
    ensures NoOddFactorBelow(v, p) ==> !(p * p <= v && v % p == 0)
  {
    if NoOddFactorBelow(v, p) && p * p <= v && v % p == 0 {
      var d :| 3 <= d < p && d % 2 == 1 && d * d <= p && p % d == 0;
      DividesTrans(v, p, d);
      MulMono(p, 1, p);
    }
  }

  /** The pass for base p = 2i + 3 starts at index (p * p - 3) / 2 and steps by p;
      it clears index j exactly when 2j + 3 is a multiple of p that is at least p * p. */
  lemma OddPassClears(j: int, p: int, start: int)
    requires j >= 0 && p >= 3 && p % 2 == 1 && 2 * start + 3 == p * p
    ensures (start <= j && (j - start) % p == 0) <==> (p * p <= 2 * j + 3 && (2 * j + 3) % p == 0)
  {
    if start <= j {
      var u := j - start;
      assert 2 * j + 3 == p * p + 2 * u;
      if u % p == 0 {
        InPassIsMultiple(p, u);
      }
      if (2 * j + 3) % p == 0 {
        MultipleIsInPass(p, u, 2 * j + 3);
      }
    }
  }

  /** An offset u that is a multiple of p gives a value p * p + 2u that is one. */
  lemma InPassIsMultiple(p: int, u: int)
    requires p >= 3 && u % p == 0
    ensures (p * p + 2 * u) % p == 0
  {
    var t := u / p;
    assert u == p * t;
    assert p * p + 2 * u == p * (p + 2 * t);
    MulMod(p, p + 2 * t);
  }

  /** For odd p, if v = p * p + 2u is a multiple of p then so is u. */
  lemma MultipleIsInPass(p: int, u: int, v: int)
    requires p >= 3 && p % 2 == 1 && u >= 0 && v == p * p + 2 * u && v % p == 0
    ensures u % p == 0
  {
    var w := v / p;
    assert v == p * w;
    assert 2 * u == p * (w - p);
    assert (w - p) % 2 == 0 by {
      if (w - p) % 2 == 1 {
        OddProduct(p, w - p);
      }
    }
    var t := (w - p) / 2;
    assert u == p * t;
    MulMod(p, t);
  }

  /** Once every odd base up to the square root of n has had its pass, the
      surviving odd values up to n are exactly the odd primes. */
  lemma OddSurvivorsArePrimes(v: int, b: int, n: nat)
    requires 3 <= v <= n && v % 2 == 1 && b > Isqrt(n)
    ensures NoOddFactorBelow(v, b) <==> IsPrime(v)
  {
    if IsPrime(v) {
      forall d | 3 <= d < b && d % 2 == 1 && d * d <= v
        ensures v % d != 0
      {
        MulMono(d, 3, d);
      }
    } else {
      CompositeFactor(v);
      OddSmallestFactor(v);
      var f := SmallestFactor(v);
      SquareBelow(f, n);
      assert 3 <= f < b && f % 2 == 1 && f * f <= v && v % f == 0;
    }
  }

  /** Entry j of the odd sieve, standing for 2j + 3, after the passes for the
      bases 3, 5, ..., 2i + 1. */
  ghost predicate OddEntry(j: int, i: int) {
    NoOddFactorBelow(2 * j + 3, 2 * i + 3)
  }

  /** The pass for base 2i + 3, from index 3 + 2i(i + 3) in steps of 2i + 3,
      turns the entries after i passes into the entries after i + 1 passes. */
  lemma OddPass(i: int, next: int, start: int)
    requires i >= 0 && next == i + 1 && start == 3 + 2 * (i * (i + 3))
    ensures forall j :: j >= 0 ==>
      (OddEntry(j, next) <==> OddEntry(j, i) && !(start <= j && (j - start) % (2 * i + 3) == 0))
  {
    var p := 2 * i + 3;
    assert 2 * start + 3 == p * p;
    forall j | j >= 0
      ensures OddEntry(j, next) <==> OddEntry(j, i) && !(start <= j && (j - start) % p == 0)
    {
      OddPassClears(j, p, start);
      NoOddFactorStep(2 * j + 3, p);
    }
  }

  /** A base whose own entry is already cleared needs no pass. */
  lemma OddSkip(i: int, next: int)
    requires i >= 0 && next == i + 1 && !OddEntry(i, i)
    ensures forall j :: j >= 0 ==> (OddEntry(j, next) <==> OddEntry(j, i))
  {
    forall j | j >= 0
      ensures OddEntry(j, next) <==> OddEntry(j, i)
    {
      SkippedPassClearsNothing(2 * j + 3, 2 * i + 3);
      NoOddFactorStep(2 * j + 3, 2 * i + 3);
    }
  }

  /** After the passes for all odd bases up to the square root of n, an entry
      of the odd sieve is set exactly when its value is prime. */
  lemma OddSieveDone(n: nat, i: int)
    requires 2 * i + 3 > Isqrt(n)
    ensures forall j :: 0 <= j && 2 * j + 3 <= n ==> (OddEntry(j, i) <==> IsPrime(2 * j + 3))
  {
    forall j | 0 <= j && 2 * j + 3 <= n
      ensures OddEntry(j, i) <==> IsPrime(2 * j + 3)
    {
      OddSurvivorsArePrimes(2 * j + 3, 2 * i + 3, n);
    }
  }

  /** The sizes `primes_until` works with: the passes stay inside the sieve,
      the entries below `length` stand for the odd values in [3, n], and
      after them only non-primes remain up to n. */
  lemma OddSieveBounds(n: int, length: int, s: nat)
    requires n >= 2 && length == n / 2 - 1 + n % 2 && s * s <= n
    ensures 0 <= s / 2 <= length && 2 * length + 1 <= n
    ensures PrimesIn(2, 2 * length + 2) == PrimesIn(2, n)
  {
    if s >= 2 {
      MulMono(s, 2, s);
    }
    if n % 2 == 1 {
      assert (n + 1) % 2 == 0;
      assert PrimesIn(2, n + 1) == PrimesIn(2, n);
    }
  }

  /** One entry of the odd sieve accounts for two consecutive values: the odd
      one it stands for and the following even one, which is not prime. */
  lemma PrimesInOddStep(i: int)
    requires i >= 0
    ensures PrimesIn(2, 2 * i + 4) == PrimesIn(2, 2 * i + 2) + (if IsPrime(2 * i + 3) then [2 * i + 3] else [])
  {
    assert (2 * i + 4) % 2 == 0;
    assert PrimesIn(2, 2 * i + 4) == PrimesIn(2, 2 * i + 3);
  }

  /** The list `[False] * (div + bool(mod))` with div, mod = divmod(length -
      start, step) is as long as the slice `sieve[start:length:step]`, negative
      counts standing for the empty list. */
  lemma OddPassCount(start: int, length: int, step: int)
    requires step > 0
    ensures var c := (length - start) / step + (if (length - start) % step != 0 then 1 else 0);
      (if c < 0 then 0 else c) == SliceLength(start, length, step)
  {
    SliceLengthFormula(start, length, step);
    var q, r := (length - start) / step, (length - start) % step;
    DivModUnique(length - start, step, q, r);
    if start < length {
      if r != 0 {
        DivModUnique(length - start - 1, step, q, r - 1);
      } else {
        DivModUnique(length - start - 1, step, q - 1, step - 1);
      }
    } else if q >= 1 {
      MulMono(step, q, 1);
    }
  }

  /** The marking phase of `primes_until`: the passes for the odd bases
      3, 5, ... up to the square root of n, each skipped when its own entry is
      already cleared, leave entry j set exactly when 2j + 3 is prime. */
  method CrossOffOdd(sieve: array<bool>, n: int, length: int)
    requires n >= 2 && length == n / 2 - 1 + n % 2 && sieve.Length == length + 1
    requires forall j :: 0 <= j < sieve.Length ==> sieve[j]
    modifies sieve
    ensures forall j :: 0 <= j < length ==> sieve[j] == IsPrime(2 * j + 3)
  {
    var s := Isqrt(n);
    OddSieveBounds(n, length, s);
    for i := 0 to s / 2
      invariant forall j :: 0 <= j < length ==> sieve[j] == OddEntry(j, i)
    {
      if !sieve[i] {
        OddSkip(i, i + 1);
        continue;
      }
      var start := 3 + 2 * (i * (i + 3));
      var step := 3 + 2 * i;
      var div, mod := (length - start) / step, (length - start) % step;
      OddPassCount(start, length, step);
      MarkMultiples(sieve, start, step, length, div + (if mod != 0 then 1 else 0));
      OddPass(i, i + 1, start);
    }
    OddSieveDone(n, s / 2);
  }

  /** `primes_until(n)`: the primes up to and including n, ascending (an odd
      prime n is included although the source's docstring says "below"). */
  method PrimesUntil(n: int) returns (primes: seq<int>)
    ensures primes == PrimesIn(2, n)
    ensures n >= 2 ==> |primes| > 0 && primes[0] == 2
  {
    if n < 2 {
      return [];
    }
    var length := n / 2 - 1 + n % 2;
    var sieve := new bool[length + 1](_ => true);
    CrossOffOdd(sieve, n, length);
    primes := [2];
    assert PrimesIn(2, 2) == [2] by {
      assert PrimesIn(2, 1) == [];
    }
    for i := 0 to length
      invariant primes == PrimesIn(2, 2 * i + 2)
      invariant forall j :: 0 <= j < length ==> sieve[j] == IsPrime(2 * j + 3)
    {
      PrimesInOddStep(i);
      if sieve[i] {
        primes := primes + [2 * i + 3];
      }
    }
    OddSieveBounds(n, length, 0);
    PrimesFromTwo(n);
  }
  // -------------------------------------------------------------- primes_between

  /** What an entry of the segmented sieve records once the even values are
      cleared and the passes for every odd base below b have run: v is odd and
      no odd d in [3, b) other than v itself divides v. */
  ghost predicate SegmentSurvivor(v: int, b: int) {
    v % 2 == 1 && forall d :: 3 <= d < b && d % 2 == 1 ==> v % d != 0 || v == d
  }

  lemma SegmentSurvivorStep(v: int, i: int)
    requires i >= 3 && i % 2 == 1
    ensures SegmentSurvivor(v, i + 2) <==> SegmentSurvivor(v, i) && (v % i != 0 || v == i)
  {
    if SegmentSurvivor(v, i) && (v % i != 0 || v == i) {
      forall d | 3 <= d < i + 2 && d % 2 == 1
        ensures v % d != 0 || v == d
      {
        if d != i {
          assert d < i;
        }
      }
    }
  }

  /** Entry k of the segmented sieve, standing for m + k, after the passes
      for the odd bases below i. */
  ghost predicate SegmentEntry(m: int, k: int, i: int) {
    SegmentSurvivor(m + k, i)
  }

  /** The list `[False] * ((1 + d - m % 2) // 2)` for d = n - m + 1 is as long
      as the slice `bitmap[m % 2::2]` of the list of max(d, 0) entries,
      negative counts standing for the empty list. */
  lemma EvenPassCount(m: int, n: int)
    ensures var c := (1 + (n - m + 1) - m % 2) / 2;
      (if c < 0 then 0 else c) == SliceLength(m % 2, if n >= m then n - m + 1 else 0, 2)
  {
    var d := if n >= m then n - m + 1 else 0;
    SliceLengthFormula(m % 2, d, 2);
    var L := n - m + 1 - m % 2;
    if m % 2 < d {
      DivModUnique(L - 1, 2, (L - 1) / 2, (L - 1) % 2);
      DivModUnique(L + 1, 2, (L - 1) / 2 + 1, (L - 1) % 2);
    } else {
      DivModUnique(L + 1, 2, (L + 1) / 2, (L + 1) % 2);
    }
  }

  /** Clearing every second entry from index m % 2 leaves exactly the odd values. */
  lemma EvenPass(m: int)
    requires m >= 1
    ensures forall k :: k >= 0 ==> ((m % 2 <= k && (k - m % 2) % 2 == 0) <==> !SegmentEntry(m, k, 3))
  {
    forall k | k >= 0
      ensures (m % 2 <= k && (k - m % 2) % 2 == 0) <==> !SegmentEntry(m, k, 3)
    {
      var r := m % 2;
      assert m == 2 * (m / 2) + r;
      if r <= k {
        DivModUnique(k - r, 2, (k - r) / 2, (k - r) % 2);
        DivModUnique(m + k, 2, m / 2 + (k - r) / 2 + r, (k - r) % 2);
      } else {
        DivModUnique(m + k, 2, m / 2, 1);
      }
    }
  }

  /** The least multiple of i at or above m is m / i * i or the next one. */
  lemma FirstMultiple(m: int, i: int, j0: int)
    requires i >= 3 && j0 == m / i * i
    ensures j0 % i == 0 && j0 <= m < j0 + i
    ensures (j0 + i) % i == 0 && (j0 + 2 * i) % i == 0
  {
    MulMod(i, m / i);
    AddMultiple(j0, i, 1);
    AddMultiple(j0, i, 2);
  }

  /** The start of the pass for base i (`j` before `j -= m`) as the source
      computes it: the least multiple of i at or above m, one step further
      when that is i itself. */
  function PassStartAsWritten(m: int, i: int): (j: int)
    requires i >= 3
    ensures j % i == 0 && j >= m
  {
    var j0 := m / i * i;
    FirstMultiple(m, i, j0);
    var j1 := if j0 < m then j0 + i else j0;
    if j1 == i then j1 + i else j1
  }

  /** For a segment that starts at 0 the pass for every base i starts at
      value 0, so it clears i itself: with n = 9 the prime 3 is lost. */
  lemma PassStartZeroSegment(i: int)
    requires i >= 3
    ensures PassStartAsWritten(0, i) == 0
    ensures (i - PassStartAsWritten(0, i)) % i == 0
    ensures IsPrime(3)
  {
    MulMod(i, 1);
  }

  /** The start of the pass for base i as intended: a multiple of i at or
      above m and beyond i, with no multiple of i other than i left out
      between m and it. */
  function PassStart(m: int, i: int): (j: int)
    requires i >= 3
    ensures j % i == 0 && j >= m && j > i && (j - i < m || j == 2 * i)
  {
    var j0 := m / i * i;
    FirstMultiple(m, i, j0);
    MulMod(i, 2);
    var j1 := if j0 < m then j0 + i else j0;
    if j1 <= i then 2 * i else j1
  }

  /** For segments starting at 1 or above the source's start is the intended one. */
  lemma PassStartAgrees(m: int, i: int)
    requires m >= 1 && i >= 3
    ensures PassStart(m, i) == PassStartAsWritten(m, i)
  {
    var j0 := m / i * i;
    FirstMultiple(m, i, j0);
    var j1 := if j0 < m then j0 + i else j0;
    if j1 < i {
      MultipleAtLeast(j1, i);
    }
  }

  /** Skipping a base i that lies in the segment and is already crossed out
      loses nothing: its multiples other than i are multiples of a smaller odd factor. */
  lemma SkippedSegmentPass(w: int, i: int)
    requires w >= 1 && i >= 3 && i % 2 == 1 && !SegmentSurvivor(i, i)
    ensures SegmentSurvivor(w, i) ==> (w % i != 0 || w == i)
  {
    if SegmentSurvivor(w, i) && w % i == 0 && w != i {
      var d :| 3 <= d < i && d % 2 == 1 && i % d == 0 && i != d;
      DividesTrans(w, i, d);
      MultipleAtLeast(w, i);
    }
  }

  /** The first multiple J of i handed to the slice in the pass for base i
      (`j` before `j -= m`): the least multiple of i at or above m, moved one
      step further when it is i itself. The pass clears value w of the
      segment exactly when w is a multiple of i other than i. */
  lemma SegmentPassClears(m: int, i: int, J: int, w: int)
    requires m >= 1 && i >= 3 && w >= m
    requires J % i == 0 && J >= m && J != i && (J - i < m || J == 2 * i)
    ensures (J <= w && (w - J) % i == 0) <==> (w % i == 0 && w != i)
  {
    MultipleAtLeast(J, i);
    if J <= w && (w - J) % i == 0 {
      var t := (w - J) / i;
      assert w == J + i * t;
      AddMultiple(J, i, t);
    }
    if w % i == 0 && w != i {
      MultipleAtLeast(w, i);
      if w < J {
        if J - i < m {
          AddMultiple(J, i, -1);
          NoMultipleBetween(J - i, w, i);
        } else {
          MulMod(i, 1);
          NoMultipleBetween(i, w, i);
        }
      }
      var a, c := w / i, J / i;
      assert w - J == i * (a - c);
      MulMod(i, a - c);
    }
  }

  /** After the passes for every odd base up to the square root of n, the
      survivors of [3, n] are exactly its primes. */
  lemma SegmentSurvivorsArePrimes(v: int, b: int, n: nat)
    requires 3 <= v <= n && b > Isqrt(n)
    ensures SegmentSurvivor(v, b) <==> IsPrime(v)
  {
    if IsPrime(v) {
      forall d | 3 <= d < b && d % 2 == 1
        ensures v % d != 0 || v == d
      {
        if d > v {
          DivModUnique(v, d, 0, v);
        }
      }
    } else if v % 2 == 1 {
      CompositeFactor(v);
      OddSmallestFactor(v);
      var f := SmallestFactor(v);
      SquareBelow(f, n);
      assert 3 <= f < b && f % 2 == 1 && v % f == 0 && v != f;
    }
  }

  /** The pass for base i, from index first - m in steps of i, turns the
      entries after the passes below i into those after the pass for i. */
  lemma SegmentPass(m: int, i: int, next: int, first: int)
    requires m >= 1 && i >= 3 && i % 2 == 1 && next == i + 2
    requires first % i == 0 && first >= m && first != i && (first - i < m || first == 2 * i)
    ensures forall k :: k >= 0 ==>
      (SegmentEntry(m, k, next) <==> SegmentEntry(m, k, i) && !(first - m <= k && (k - (first - m)) % i == 0))
  {
    forall k | k >= 0
      ensures SegmentEntry(m, k, next) <==> SegmentEntry(m, k, i) && !(first - m <= k && (k - (first - m)) % i == 0)
    {
      assert k - (first - m) == m + k - first;
      SegmentPassClears(m, i, first, m + k);
      SegmentSurvivorStep(m + k, i);
    }
  }

  /** A base inside the segment whose own entry is already cleared needs no pass. */
  lemma SegmentSkip(m: int, i: int, next: int)
    requires m >= 1 && i >= 3 && i % 2 == 1 && next == i + 2 && !SegmentSurvivor(i, i)
    ensures forall k :: k >= 0 ==> (SegmentEntry(m, k, next) <==> SegmentEntry(m, k, i))
  {
    forall k | k >= 0
      ensures SegmentEntry(m, k, next) <==> SegmentEntry(m, k, i)
    {
      SkippedSegmentPass(m + k, i);
      SegmentSurvivorStep(m + k, i);
    }
  }

  /** After the passes for all odd bases up to the square root of n, an entry
      for a value in [3, n] is set exactly when that value is prime. */
  lemma SegmentDone(m: int, n: nat, i: int)
    requires i > Isqrt(n)
    ensures forall k :: 0 <= k && 3 <= m + k <= n ==> (SegmentEntry(m, k, i) <==> IsPrime(m + k))
  {
    forall k | 0 <= k && 3 <= m + k <= n
      ensures SegmentEntry(m, k, i) <==> IsPrime(m + k)
    {
      SegmentSurvivorsArePrimes(m + k, i, n);
    }
  }

  /** One round of the loop of `primes_between`, for the odd base i: skipped
      when i lies in the segment and is already cleared, otherwise the
      multiples of i from the first one at or above m (passing over i itself)
      are cleared. */
  method SegmentRound(bitmap: array<bool>, m: int, n: int, i: int)
    requires 1 <= m && 3 <= i <= n && i % 2 == 1
    requires bitmap.Length == (if n >= m then n - m + 1 else 0)
    requires forall k :: 0 <= k < bitmap.Length ==> bitmap[k] == SegmentEntry(m, k, i)
    modifies bitmap
    ensures forall k :: 0 <= k < bitmap.Length ==> bitmap[k] == SegmentEntry(m, k, i + 2)
  {
    if i > m && !bitmap[i - m] {
      SegmentSkip(m, i, i + 2);
      return;
    }
    var j := m / i * i;
    if j < m {
      j := j + i;
    }
    if j == i {
      j := j + i;
    }
    PassStartAgrees(m, i);
    assert j == PassStart(m, i);
    SegmentPass(m, i, i + 2, j);
    j := j - m;
    // `[False] * len(bitmap[j::i])`
    MarkMultiples(bitmap, j, i, bitmap.Length, SliceLength(j, bitmap.Length, i));
  }

  /** The marking phase of `primes_between`: clearing the even values, the
      passes for the odd bases up to the square root of n (skipping a base that
      lies in the segment and is already cleared) and the corrections for 1
      and 2 leave entry k set exactly when m + k is prime. */
  method CrossOffSegment(bitmap: array<bool>, m: int, n: int)
    requires 1 <= m && 0 <= n && (m <= 2 ==> 2 <= n)
    requires bitmap.Length == (if n >= m then n - m + 1 else 0)
    requires forall k :: 0 <= k < bitmap.Length ==> bitmap[k]
    modifies bitmap
    ensures forall k :: 0 <= k < bitmap.Length ==> bitmap[k] == IsPrime(m + k)
  {
    var d := bitmap.Length;
    // `[False] * int(round((1 + d - (m % 2)) // 2))` with the source's d
    EvenPassCount(m, n);
    MarkMultiples(bitmap, m % 2, 2, d, (1 + (n - m + 1) - m % 2) / 2);
    EvenPass(m);
    var s := Isqrt(n);
    assert s <= n by {
      if s >= 1 {
        MulMono(s, 1, s);
      }
    }
    var i := 3;
    while i <= s
      invariant i >= 3 && i % 2 == 1
      invariant forall k :: 0 <= k < d ==> bitmap[k] == SegmentEntry(m, k, i)
      decreases s + 2 - i
    {
      SegmentRound(bitmap, m, n, i);
      i := i + 2;
    }
    SegmentDone(m, n, i);
    if m <= 1 {
      bitmap[1 - m] := false;
    }
    if m <= 2 {
      bitmap[2 - m] := true;
    }
  }

  /** `primes_between(m, n)`: the primes in [m, n], ascending. The
      precondition excludes the inputs on which the source raises or can go
      wrong: for n < 0 the square root is complex; for m <= 2 with n < 2 a
      correction for 1 or 2 indexes past the list; for m = 0 and n >= 9 the
      pass for 3 clears 3 (for m = 0 and n <= 8 no pass runs and the result
      is right); for m < 0 the value -1 is returned. */
  method PrimesBetween(m: int, n: int) returns (primes: seq<int>)
    requires 1 <= m && 0 <= n && (m <= 2 ==> 2 <= n)
    ensures primes == PrimesIn(m, n)
  {
    // `[True] * d` is empty when d <= 0
    var d := if n >= m then n - m + 1 else 0;
    var bitmap := new bool[d](_ => true);
    CrossOffSegment(bitmap, m, n);
    primes := [];
    for k := 0 to d
      invariant primes == PrimesIn(m, m + k - 1)
      invariant forall k :: 0 <= k < d ==> bitmap[k] == IsPrime(m + k)
    {
      assert PrimesIn(m, m + k) == PrimesIn(m, m + k - 1) + (if IsPrime(m + k) then [m + k] else []);
      if bitmap[k] {
        primes := primes + [m + k];
      }
    }
  }

  /** The two sieves agree: the primes up to n are those below m followed by
      those of [m, n]. */
  lemma SievesAgree(m: int, n: int)
    requires 2 <= m <= n + 1
    ensures PrimesIn(2, n) == PrimesIn(2, m - 1) + PrimesIn(m, n)
  {
    PrimesInSplit(2, m, n);
  }
}
