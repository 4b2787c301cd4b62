# Integer sequences of `skynet.math.sequences`, modelled and verified in Dafny

This project models `skynet/math/sequences.py`, a module of number
sequences. It covers:

- the Fibonacci numbers, both the generator `Fibonacci` and the
  fast-doubling function `fibonacci`;
- the two array sieves `primes_until` (odd-only) and `primes_between`
  (segmented);
- the dictionary-based incremental sieve `prime_generator`, and the
  dispatcher `primes`;
- the polygonal numbers (`polygonal_numbers`, `polygonal_number` and
  their triangular, pentagonal and hexagonal bindings);
- the Calkin-Wilf enumeration `rationals`;
- the coprime-pair tree walk `coprime_pairs`.

Each generator becomes a class with the generator's local variables as
fields, ghost history, a `Valid()` invariant and a `Next()` method that runs
the body up to the next `yield`. The list-building functions become methods
over arrays and sequences, proved against reference definitions:

- `Fib`, the textbook recurrence;
- `IsPrime` and `PrimesIn(lo, hi)`, the ascending primes of a range;
- `PolygonalNumber`, the closed form;
- `Iterate`, the n-th successor of a fraction;
- `Pairs`, the pre-order walk of the tree.

Properties are then proved about those definitions.

Files: `arithmetic.dfy` and `gcd.dfy` (division, square root, Euclid's
gcd and Bezout), `primality.dfy` (primes, smallest factor, Euclid's lemma,
infinitude of primes, `PrimesIn`), `fibonacci.dfy`, `sieve.dfy`,
`prime_generator.dfy`, `primes.dfy`, `polygonal.dfy`, `rationals.dfy`,
`coprime_pairs.dfy`.

## Model

| member | source | states |
|---|---|---|
| Fibonacci.FibonacciGenerator.constructor | skynet/math/sequences.py:6-8 | a fresh generator holds p, q = F(0), F(1) and has yielded nothing |
| Fibonacci.FibonacciGenerator.Next | skynet/math/sequences.py:10-12 | the k-th yield is F(k) (and equals `fibonacci(k)`); afterwards p, q = F(k+1), F(k+2) |
| Fibonacci.FibAddition | skynet/math/sequences.py:21-24 | F(a+b+1) = F(a+1)F(b+1) + F(a)F(b), the identity both doubling formulas come from |
| Fibonacci.FibDoublingOdd | skynet/math/sequences.py:21-22 | F(2k+1) = F(k)^2 + F(k+1)^2 |
| Fibonacci.FibDoublingEven | skynet/math/sequences.py:23-24 | F(2k) = (2F(k-1) + F(k))F(k) for k >= 1 |
| Fibonacci.FastFib | skynet/math/sequences.py:14-24 | the fast-doubling recursion terminates for every n >= 0 and returns F(n) |
| Sieve.SliceLengthFormula | skynet/math/sequences.py:43-44 | the number of indices start, start + step, ... below stop, which is the length of a slice, is ceil((stop - start) / step), or 0 when start >= stop |
| Sieve.MarkMultiples | skynet/math/sequences.py:43-44 | the slice assignment `a[start:stop:step] = [False] * count`, allowed only when the list is as long as the slice, clears exactly the entries start + t*step below stop and leaves every other entry unchanged |
| Sieve.OddPassCount | skynet/math/sequences.py:43-44 | the list length `div + bool(mod)` with div, mod = divmod(length - start, step), where a negative length gives the empty list, is the length of the slice `sieve[start:length:step]`, so the assignment never raises |
| Sieve.EvenPassCount | skynet/math/sequences.py:54-56 | the list length `(1 + d - m % 2) // 2`, where a negative length gives the empty list, is the length of the slice `bitmap[m % 2::2]` for every m and n, so the assignment never raises |
| Sieve.NoOddFactorStep | skynet/math/sequences.py:36-44 | one pass of the odd sieve adds exactly the condition "p does not divide v, or v < p*p" |
| Sieve.OddPassClears | skynet/math/sequences.py:40-44 | the pass for index i starts at the index of (2i+3)^2 and clears exactly the odd multiples of 2i+3 from there on |
| Sieve.OddSurvivorsArePrimes | skynet/math/sequences.py:36-47 | after the passes for all odd bases up to the square root of n, an odd v in [3, n] survives exactly when it is prime |
| Sieve.CrossOffOdd | skynet/math/sequences.py:34-44 | after the marking loop, with passes for cleared bases skipped, entry j is set exactly when 2j + 3 is prime |
| Sieve.PrimesUntil | skynet/math/sequences.py:26-49 | `primes_until(n)` returns exactly the primes in [2, n], in ascending order, beginning with 2 when n >= 2; [] for n < 2 |
| Sieve.EvenPass | skynet/math/sequences.py:56 | clearing from index m % 2 in steps of 2 clears exactly the even values of the segment |
| Sieve.PassStartAsWritten | skynet/math/sequences.py:62-68 | the code's pass start for base i is a multiple of i at or above m |
| Sieve.PassStartZeroSegment | skynet/math/sequences.py:62-72 | for m = 0 the pass for every base i starts at value 0 and so clears i itself; 3 is prime |
| Sieve.PassStart | skynet/math/sequences.py:62-68 | the intended pass start is a multiple of i, at least m, beyond i, and no multiple of i other than i lies between m and it |
| Sieve.PassStartAgrees | skynet/math/sequences.py:62-68 | for m >= 1 the code's start is the intended one |
| Sieve.SegmentPassClears | skynet/math/sequences.py:62-72 | the pass for base i clears a value w >= m exactly when w is a multiple of i other than i |
| Sieve.SkippedSegmentPass | skynet/math/sequences.py:59-60 | skipping a base that lies in the segment and is already cleared loses nothing |
| Sieve.SegmentSurvivorsArePrimes | skynet/math/sequences.py:58-72 | after the passes for all odd bases up to the square root of n, a value in [3, n] survives exactly when it is prime |
| Sieve.SegmentRound | skynet/math/sequences.py:58-72 | one round of the loop for odd base i turns the entries after the passes below i into those after the pass for i |
| Sieve.CrossOffSegment | skynet/math/sequences.py:54-78 | after the marking and the corrections for 1 and 2, entry k is set exactly when m + k is prime |
| Sieve.PrimesBetween | skynet/math/sequences.py:51-80 | `primes_between(m, n)` returns exactly the primes in [m, n], in ascending order ([] when n < m) |
| Sieve.SievesAgree | skynet/math/sequences.py:26-80 | the primes up to n are the primes below m followed by `primes_between(m, n)` |
| Primality.PrimesInSpec | skynet/math/sequences.py:26-27 | the reference list PrimesIn(lo, hi) holds every prime of [lo, hi], nothing else, strictly ascending |
| Primality.PrimesInSplit | skynet/math/sequences.py:51-52 | splitting a range splits its list of primes |
| Primality.PrimeAbove | skynet/math/sequences.py:89-98 | above every bound there is a prime, so the candidate loop of the generator always reaches its next yield |
| PrimeGeneration.KeyIsComposite | skynet/math/sequences.py:90-94 | a candidate found in the dictionary is composite |
| PrimeGeneration.MissingIsPrime | skynet/math/sequences.py:90-93 | a candidate missing from the dictionary is prime |
| PrimeGeneration.SquareIsFree | skynet/math/sequences.py:92 | when q is yielded, q*q is not already a key, so the insertion never overwrites another prime's entry |
| PrimeGeneration.PrimeStep | skynet/math/sequences.py:91-93 | storing q*q under a new prime q keeps the dictionary invariant for the next candidate |
| PrimeGeneration.CrossOffStep | skynet/math/sequences.py:94-98 | moving prime p from the composite q to its next free odd multiple keeps the dictionary invariant |
| PrimeGeneration.PrimeGenerator.constructor | skynet/math/sequences.py:85 | the generator starts with an empty dictionary and nothing yielded |
| PrimeGeneration.PrimeGenerator.FreeMultiple | skynet/math/sequences.py:95-97 | the inner loop stops at the first odd multiple of p beyond q that is not a key; every odd multiple in between is a key |
| PrimeGeneration.PrimeGenerator.CrossOff | skynet/math/sequences.py:90-98 | the composite branch keeps the invariant, yields nothing, and moves to the next odd candidate |
| PrimeGeneration.PrimeGenerator.Next | skynet/math/sequences.py:82-98 | each yield is prime; after it, the yields so far are exactly the primes up to it, in ascending order, with none skipped |
| PrimeSources.Primes | skynet/math/sequences.py:100-108 | no start: a fresh generator; only a start: the primes up to start; both: the primes in [start, stop] |
| Polygonal.PolygonalNumber | skynet/math/sequences.py:126-129 | the floor division by 2 is exact, and the n-th r-gonal number is n + (r-2) n(n-1)/2 |
| Polygonal.PolygonalStart | skynet/math/sequences.py:126-129 | every r-gonal sequence starts 0, 1, r |
| Polygonal.PolygonalStep | skynet/math/sequences.py:114-117 | the generator's increment k*r - 2k + 1 takes the k-th r-gonal number to the (k+1)-th |
| Polygonal.PolygonalGenerator.constructor | skynet/math/sequences.py:110-113 | the generator starts at term 0 with nothing yielded |
| Polygonal.PolygonalGenerator.Next | skynet/math/sequences.py:114-117 | the k-th yield of `polygonal_numbers(r)` is `polygonal_number(k, r)` |
| Polygonal.TriangularNumbers | skynet/math/sequences.py:119 | `triangular_numbers` is the generator for r = 3 |
| Polygonal.PentagonalNumbers | skynet/math/sequences.py:121 | `pentagonal_numbers` is the generator for r = 5 |
| Polygonal.HexagonalNumbers | skynet/math/sequences.py:123 | `hexagonal_numbers` is the generator for r = 6 |
| Polygonal.TriangularNumber | skynet/math/sequences.py:131 | `triangular_number(n)` is n(n+1)/2 |
| Polygonal.PentagonalNumber | skynet/math/sequences.py:133 | `pentagonal_number(n)` is n(3n-1)/2 |
| Polygonal.HexagonalNumber | skynet/math/sequences.py:135 | `hexagonal_number(n)` is n(2n-1) |
| Polygonal.HexagonalIsTriangular | skynet/math/sequences.py:131-136 | every hexagonal number is a triangular number: H(n) = T(2n-1) |
| Rationals.Step | skynet/math/sequences.py:141-145 | the loop body takes a fraction in lowest terms to a fraction in lowest terms whose numerator is the old denominator and whose denominator exceeds floor(x) times the old denominator |
| Rationals.Iterate | skynet/math/sequences.py:140-147 | every value the loop reaches from a fraction in lowest terms is again a fraction in lowest terms with a positive denominator |
| Rationals.MakeFraction | skynet/math/sequences.py:141-145 | the `Fraction` constructor on a >= 0, b >= 1 gives a fraction in lowest terms with the same value a/b |
| Rationals.SuccessorGcd | skynet/math/sequences.py:141-145 | gcd(d, d*q + d - r) = gcd(n, d) for n = d*q + r, so the new pair is as reduced as the old one |
| Rationals.StepUnreduced | skynet/math/sequences.py:141-145 | the constructor never has to reduce the pair it is given, and the new numerator is the old denominator |
| Rationals.StepFormula | skynet/math/sequences.py:141-145 | the step is x -> 1/(2 floor(x) + 1 - x) |
| Rationals.PredecessorOfStep | skynet/math/sequences.py:141-145 | the step has an explicit inverse |
| Rationals.StepInjective | skynet/math/sequences.py:141-145 | distinct fractions have distinct successors |
| Rationals.IteratePositive | skynet/math/sequences.py:140-147 | every yielded fraction has a positive numerator |
| Rationals.IterateDistinct | skynet/math/sequences.py:138-147 | from the default start 0/1 no value is ever yielded twice |
| Rationals.CalkinWilfStart | skynet/math/sequences.py:138-147 | from 0/1 the yields begin 1/1, 1/2, 2/1, 1/3, 3/2, 2/3, 3/1 |
| Rationals.RationalEnumerator.constructor | skynet/math/sequences.py:138 | the default start is 0/1 |
| Rationals.RationalEnumerator.FromStart | skynet/math/sequences.py:138 | a generator started from a non-negative fraction in lowest terms |
| Rationals.RationalEnumerator.Next | skynet/math/sequences.py:140-147 | the k-th yield is the k-th successor of the start; from 0/1 it differs from every earlier yield |
| CoprimePairs.Pairs | skynet/math/sequences.py:151-161 | the walk from (a, b) yields (a, b) first, and every later pair (x, y) has a + b <= x <= n and y >= 1 |
| CoprimePairs.Subtrees | skynet/math/sequences.py:154-159 | the walks of the children of (a, b) for rounds k, k+1, ... yield only pairs (x, y) with a*k + b <= x <= n and y >= 1 |
| CoprimePairs.EuclidBack | skynet/math/sequences.py:154-157 | a coprime pair (x, y) with 2 <= y < x is the child (y*q + r, y), with q >= 1, of the coprime pair (y, r) with 1 <= r < y |
| CoprimePairs.CoprimePairsOf | skynet/math/sequences.py:151-161 | the loop over k with its recursive walks yields exactly the pre-order walk Pairs(n, a, b) |
| CoprimePairs.PairsSound | skynet/math/sequences.py:151-161 | (a, b) comes first; every other pair (x, y) has 1 <= y < x <= n, x > a and gcd(x, y) = gcd(a, b), so a coprime root gives only coprime pairs |
| CoprimePairs.PairsTop | skynet/math/sequences.py:155-157 | every pair below (c, d) leads back to (c, d) by Euclid's steps (x, y) -> (y, x mod y) |
| CoprimePairs.PairsDistinct | skynet/math/sequences.py:151-161 | no pair is yielded twice |
| CoprimePairs.PairsClosed | skynet/math/sequences.py:154-159 | with each pair (c, d) the walk also yields every child (c*k + d, c) up to n |
| CoprimePairs.PairsComplete | skynet/math/sequences.py:151-161 | from (1, 1) every coprime pair 1 <= y < x <= n is yielded |
| CoprimePairs.CoprimePairsExact | skynet/math/sequences.py:151-161 | from (1, 1) a pair is yielded if and only if it is (1, 1) or a coprime pair 1 <= y < x <= n, and each is yielded once |

## Left out

- `skynet.decorators` is not part of this model. `memoize` only caches
  results of `fibonacci`, so `FastFib` models the undecorated recursion.
- `int(n ** 0.5)` is modelled by the exact integer square root `Isqrt`.
  The floating-point rounding of very large n is not modelled.
- Generators are modelled as objects whose `Next()` runs the body up to the
  next `yield`. Suspension between calls is not modelled.
- CoprimePairs.CoprimePairsOf: it returns the whole finite list at once,
  where the source yields it lazily.
- Fibonacci.FastFib: n < 0 is excluded. The source recurses without end
  there.
- Sieve.PrimesBetween: n < 0 is excluded, because `n ** 0.5` is then
  complex and `int()` raises.
- Sieve.PrimesBetween: m <= 2 with n < 2 is excluded, because the list then
  has too few entries for the corrections at lines 75 and 78. For m = 1,
  n = 0 the assignment `bitmap[1 - m]` is already out of range; in the other
  cases `bitmap[2 - m]` is.
- Sieve.PrimesBetween: m <= 0 is excluded. For m = 0 and 2 <= n <= 8 no odd
  base is at most the square root of n, no pass runs, and the source returns
  the right list (`primes_between(0, 8)` is [2, 3, 5, 7]). For m = 0 and
  n >= 9 the pass for 3 clears 3 itself (see Findings). For m < 0 <= n the
  value -1 is never cleared and is returned as a prime.
- Rationals.RationalEnumerator.FromStart: negative starting fractions are
  not modelled. For example, -1/1 makes the source build `Fraction(1, 0)`.
- Rationals.IterateDistinct: no-repetition is proved only from the default
  start 0/1. That every positive rational is eventually yielded is not
  proved.
- CoprimePairs.Pairs: a root needs a >= 1 and a + b >= 1. Otherwise the
  walk need not terminate; for example, a = 0 loops for ever when b <= n.
- CoprimePairs.PairsSound: the properties need b >= 1. For b <= 0 the first
  child (a + b, a) need not have its first component above a.
- Sieve.PrimesUntil: its docstring says "below" the bound. The code (and the
  model) include n itself when n is prime.

## Findings

| source | as written | input that shows it | evidently intended | confidence | as-written member | corrected member |
|---|---|---|---|---|---|---|
| skynet/math/sequences.py:62-72 | the pass for base i starts at the first multiple of i at or above m, moved on only when it equals i | m = 0, n = 9: the pass for 3 starts at value 0 and clears 3, so the result is [2, 5, 7] | a pass never clears its own base i; it starts beyond i | high, not executed | Sieve.PassStartZeroSegment | Sieve.PassStart |
