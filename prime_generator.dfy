/** The unbounded incremental sieve `prime_generator` of
    skynet/math/sequences.py. After yielding 2 it walks the odd candidates
    q = 3, 5, 7, ...; the dictionary `composites` maps upcoming odd composites
    to the prime that crossed them off. A candidate found there is composite
    and its prime moves on to its next free odd multiple; a candidate not
    found there is prime and enters the dictionary with its square. */
module PrimeGeneration {
  import opened Arithmetic
  import opened Primality

  /** Every key is an odd number at or after the candidate, crossed off by
      an odd prime below the candidate that divides it. */
  ghost predicate KeysValid(composites: map<int, int>, candidate: int) {
    forall k :: k in composites ==>
      && k >= candidate && k % 2 == 1
      && 3 <= composites[k] < candidate && IsPrime(composites[k])
      && k % composites[k] == 0
  }

  /** Each odd prime below the candidate owns exactly one key (`keyOf` is a
      bookkeeping inverse of `composites`). */
  ghost predicate Paired(composites: map<int, int>, keyOf: map<int, int>, candidate: int) {
    && (forall p :: p in keyOf <==> 3 <= p < candidate && IsPrime(p))
    && (forall p :: p in keyOf ==> keyOf[p] in composites && composites[keyOf[p]] == p)
    && (forall k :: k in composites ==> composites[k] in keyOf && keyOf[composites[k]] == k)
  }

  /** No odd composite ahead is missed: either it is already a key, or its
      smallest factor is not yet a known prime, or that prime's key has not
      yet passed it. */
  ghost predicate Covered(composites: map<int, int>, keyOf: map<int, int>, candidate: int)
    requires candidate >= 2
  {
    forall w {:trigger SmallestFactor(w)} :: candidate <= w && w % 2 == 1 && !IsPrime(w) ==>
      || w in composites
      || SmallestFactor(w) >= candidate
      || (SmallestFactor(w) in keyOf && keyOf[SmallestFactor(w)] <= w)
  }

  ghost predicate Inv(composites: map<int, int>, keyOf: map<int, int>, candidate: int) {
    && candidate >= 3 && candidate % 2 == 1
    && KeysValid(composites, candidate)
    && Paired(composites, keyOf, candidate)
    && Covered(composites, keyOf, candidate)
  }

  /** A candidate found in the dictionary is composite. */
  lemma KeyIsComposite(composites: map<int, int>, keyOf: map<int, int>, candidate: int)
    requires Inv(composites, keyOf, candidate) && candidate in composites
    ensures !IsPrime(candidate)
  {
    assert candidate % composites[candidate] == 0;
  }

  /** A candidate missing from the dictionary is prime. */
  lemma MissingIsPrime(composites: map<int, int>, keyOf: map<int, int>, candidate: int)
    requires Inv(composites, keyOf, candidate) && candidate !in composites
    ensures IsPrime(candidate)
  {
    if !IsPrime(candidate) {
      CompositeFactor(candidate);
      OddSmallestFactor(candidate);
    }
  }

  /** The square of a new prime q is not yet a key: every key is divisible
      by a smaller prime, which cannot divide q * q. */
  lemma SquareIsFree(composites: map<int, int>, keyOf: map<int, int>, q: int)
    requires Inv(composites, keyOf, q) && IsPrime(q)
    ensures q * q !in composites
  {
    if q * q in composites {
      PrimeSquare(composites[q * q], q);
    }
  }

  /** The prime branch: inserting q * q -> q and moving past q keeps the
      invariant. */
  lemma PrimeStep(composites: map<int, int>, keyOf: map<int, int>, q: int)
    requires Inv(composites, keyOf, q) && q !in composites
    ensures IsPrime(q)
    ensures Inv(composites[q * q := q], keyOf[q := q * q], q + 2)
  {
    MissingIsPrime(composites, keyOf, q);
    SquareIsFree(composites, keyOf, q);
    assert !IsPrime(q + 1) by {
      assert (q + 1) % 2 == 0;
    }
    PrimeStepKeys(composites, q);
    PrimeStepPaired(composites, keyOf, q);
    PrimeStepCovered(composites, keyOf, q);
  }

  lemma PrimeStepKeys(composites: map<int, int>, q: int)
    requires KeysValid(composites, q) && q >= 3 && q % 2 == 1 && IsPrime(q)
    ensures KeysValid(composites[q * q := q], q + 2)
  {
    MulMono(q, 3, q);
    OddProduct(q, q);
    MulMod(q, q);
  }

  lemma PrimeStepPaired(composites: map<int, int>, keyOf: map<int, int>, q: int)
    requires Paired(composites, keyOf, q) && KeysValid(composites, q)
    requires IsPrime(q) && !IsPrime(q + 1) && q * q !in composites
    ensures Paired(composites[q * q := q], keyOf[q := q * q], q + 2)
  {
  }

  lemma PrimeStepCovered(composites: map<int, int>, keyOf: map<int, int>, q: int)
    requires q >= 3 && q % 2 == 1 && Covered(composites, keyOf, q)
    ensures Covered(composites[q * q := q], keyOf[q := q * q], q + 2)
  {
    var c, o := composites[q * q := q], keyOf[q := q * q];
    forall w | q + 2 <= w && w % 2 == 1 && !IsPrime(w)
      ensures || w in c
              || SmallestFactor(w) >= q + 2
              || (SmallestFactor(w) in o && o[SmallestFactor(w)] <= w)
    {
      var f := SmallestFactor(w);
      OddSmallestFactor(w);
      if f == q {
        CompositeFactor(w);
        assert o[f] == q * q;
      } else if f < q {
        assert w in composites || (f in keyOf && keyOf[f] <= w);
        if w !in composites {
          assert o[f] == keyOf[f];
        }
      } else {
        assert f != q + 1;
      }
    }
  }

  /** The composite branch: the prime p crossing off candidate q moves to x,
      its next odd multiple beyond q that is not a key, every odd multiple of
      p in between being a key already. This keeps the invariant. */
  lemma CrossOffStep(composites: map<int, int>, keyOf: map<int, int>, q: int, x: int)
    requires Inv(composites, keyOf, q) && q in composites
    requires x > q && x % 2 == 1 && x % composites[q] == 0 && x !in composites
    requires forall y :: q < y < x && y % 2 == 1 && y % composites[q] == 0 ==> y in composites
    ensures Inv((composites - {q})[x := composites[q]], keyOf[composites[q] := x], q + 2)
  {
    KeyIsComposite(composites, keyOf, q);
    assert !IsPrime(q + 1) by {
      assert (q + 1) % 2 == 0;
    }
    CrossOffKeys(composites, q, x);
    CrossOffPaired(composites, keyOf, q, x);
    CrossOffCovered(composites, keyOf, q, x);
  }

  lemma CrossOffKeys(composites: map<int, int>, q: int, x: int)
    requires KeysValid(composites, q) && q % 2 == 1 && q in composites
    requires x > q && x % 2 == 1 && x % composites[q] == 0
    ensures KeysValid((composites - {q})[x := composites[q]], q + 2)
  {
  }

  lemma CrossOffPaired(composites: map<int, int>, keyOf: map<int, int>, q: int, x: int)
    requires Paired(composites, keyOf, q) && q in composites && x !in composites
    requires !IsPrime(q) && !IsPrime(q + 1)
    ensures Paired((composites - {q})[x := composites[q]], keyOf[composites[q] := x], q + 2)
  {
  }

  lemma CrossOffCovered(composites: map<int, int>, keyOf: map<int, int>, q: int, x: int)
    requires q >= 3 && q % 2 == 1 && Covered(composites, keyOf, q) && q in composites && !IsPrime(q)
    requires Paired(composites, keyOf, q)
    requires x > q && x !in composites
    requires forall y :: q < y < x && y % 2 == 1 && y % composites[q] == 0 ==> y in composites
    ensures Covered((composites - {q})[x := composites[q]], keyOf[composites[q] := x], q + 2)
  {
    var p := composites[q];
    var c, o := (composites - {q})[x := p], keyOf[p := x];
    forall w | q + 2 <= w && w % 2 == 1 && !IsPrime(w)
      ensures || w in c
              || SmallestFactor(w) >= q + 2
              || (SmallestFactor(w) in o && o[SmallestFactor(w)] <= w)
    {
      var f := SmallestFactor(w);
      OddSmallestFactor(w);
      if f < q {
        assert f in keyOf;
        assert w in composites || keyOf[f] <= w;
        if w in composites {
          assert w in c;
        } else if f != p {
          assert o[f] == keyOf[f];
        }
      } else {
        assert f != q && f != q + 1;
      }
    }
  }

  /** An odd composite candidate adds no prime to the list. */
  lemma CompositeAdvance(q: int)
    requires q >= 3 && q % 2 == 1 && !IsPrime(q)
    ensures PrimesIn(2, q + 1) == PrimesIn(2, q - 1)
  {
    assert (q + 1) % 2 == 0;
    assert PrimesIn(2, q + 1) == PrimesIn(2, q);
  }

  /** An odd prime candidate adds itself, and the even number after it nothing. */
  lemma PrimeAdvance(q: int)
    requires q >= 3 && q % 2 == 1 && IsPrime(q)
    ensures PrimesIn(2, q) == PrimesIn(2, q - 1) + [q]
    ensures PrimesIn(2, q + 1) == PrimesIn(2, q)
  {
    assert (q + 1) % 2 == 0;
  }

  /** An odd composite below a prime bound leaves room for the next odd number. */
  lemma NextOddBelow(q: int, bound: int)
    requires q >= 3 && q % 2 == 1 && !IsPrime(q) && IsPrime(bound) && q <= bound
    ensures q + 2 <= bound
  {
    assert bound % 2 != 0;
    assert q != bound;
  }

  /** Every finite set of integers lies below some bound at least lo. */
  lemma {:induction false} BoundAbove(keys: set<int>, lo: int) returns (b: int)
    ensures b >= lo && forall k :: k in keys ==> k < b
    decreases |keys|
  {
    if k :| k in keys {
      var b' := BoundAbove(keys - {k}, lo);
      assert forall j :: j in keys ==> j == k || j in keys - {k};
      b := if k < b' then b' else k + 1;
    } else {
      b := lo;
    }
  }

  /** The generator object: the dictionary, the next odd candidate, and
      whether 2 has been yielded yet. */
  class PrimeGenerator {
    var composites: map<int, int>
    var candidate: int
    var started: bool
    /** The primes yielded so far. */
    ghost var yielded: seq<int>
    /** The key currently held by each odd prime already yielded. */
    ghost var keyOf: map<int, int>

    ghost predicate Valid()
      reads this
    {
      && Inv(composites, keyOf, candidate)
      && (!started ==> candidate == 3 && yielded == [])
      && (started ==> yielded == PrimesIn(2, candidate - 1))
    }

    constructor ()
      ensures Valid() && !started && yielded == []
    {
      composites := map[];
      candidate := 3;
      started := false;
      yielded := [];
      keyOf := map[];
    }

    /** The inner `while` of the `else` branch: from x = p + q, step by p
        while x is a key or even. It stops at the first odd multiple of p
        beyond q that is not a key. */
    method FreeMultiple(p: int, q: int) returns (x: int)
      requires p >= 3 && p % 2 == 1 && q % p == 0
      ensures x > q && x % 2 == 1 && x % p == 0 && x !in composites
      ensures forall y :: q < y < x && y % 2 == 1 && y % p == 0 ==> y in composites
    {
      ghost var b := BoundAbove(composites.Keys, q + 1);
      x := p + q;
      AddMultiple(q, p, 1);
      forall y | q < y < x
        ensures y % p != 0
      {
        NoMultipleBetween(q, y, p);
      }
      while x in composites || x % 2 == 0
        invariant q < x < b + 2 * p && x % p == 0
        invariant x >= b + p ==> x % 2 == 1
        invariant forall y :: q < y < x && y % 2 == 1 && y % p == 0 ==> y in composites
        decreases b + 2 * p - x
      {
        forall y | q < y < x + p && y % 2 == 1 && y % p == 0
          ensures y in composites
        {
          if y > x {
            NoMultipleBetween(x, y, p);
          }
        }
        AddMultiple(x, p, 1);
        OddSum(x, p);
        x := x + p;
      }
    }

    /** The `else` branch: pop the candidate's prime p, store p under its next
        free odd multiple, and move to the next candidate. */
    method CrossOff()
      requires Valid() && started && candidate in composites
      modifies this
      ensures Valid() && started && yielded == old(yielded)
      ensures candidate == old(candidate) + 2
    {
      ghost var c0 := composites;
      var q := candidate;
      var p := composites[q];
      assert Inv(c0, keyOf, q);
      assert p >= 3 && p % 2 == 1 && q % p == 0 by {
        assert IsPrime(p) && p % 2 != 0;
      }
      composites := composites - {q};
      var x := FreeMultiple(p, q);
      assert x !in c0;
      forall y | q < y < x && y % 2 == 1 && y % p == 0
        ensures y in c0
      {
        assert y in composites;
      }
      CrossOffStep(c0, keyOf, q, x);
      composites := composites[x := p];
      keyOf := keyOf[p := x];
      candidate := q + 2;
      CompositeAdvance(q);
    }

    /** Resumes the generator up to its next `yield`: 2 on the first call,
        afterwards the next odd candidate that is not in the dictionary. */
    method Next() returns (p: int)
      requires Valid()
      modifies this
      ensures Valid() && started
      ensures IsPrime(p) && yielded == old(yielded) + [p]
      ensures yielded == PrimesIn(2, p)
    {
      if !started {
        started := true;
        yielded := [2];
        assert PrimesIn(2, 1) == [];
        return 2;
      }
      ghost var bound := PrimeAbove(candidate);
      while candidate in composites
        invariant Valid() && started && yielded == old(yielded)
        invariant candidate <= bound
        decreases bound - candidate
      {
        KeyIsComposite(composites, keyOf, candidate);
        NextOddBelow(candidate, bound);
        CrossOff();
      }
      p := candidate;
      PrimeStep(composites, keyOf, p);
      PrimeAdvance(p);
      composites := composites[p * p := p];
      keyOf := keyOf[p := p * p];
      yielded := yielded + [p];
      candidate := p + 2;
    }
  }
}
