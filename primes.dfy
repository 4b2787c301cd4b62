/** `primes(start, stop)` of skynet/math/sequences.py: the unbounded prime
    generator when no start is given, the primes up to start when only start
    is given, and the primes in [start, stop] otherwise. */
module PrimeSources {
  import opened Primality
  import opened Sieve
  import opened PrimeGeneration

  datatype Option<T> = None | Some(value: T)

  /** What `primes` returns: a generator object or a list. */
  datatype PrimeSource = Unbounded(generator: PrimeGenerator) | Listed(values: seq<int>)

  /** The dispatch on the arguments. A stop given without a start is ignored,
      as in the source. */
  method Primes(start: Option<int>, stop: Option<int>) returns (r: PrimeSource)
    requires start.Some? && stop.Some? ==>
      1 <= start.value && 0 <= stop.value && (start.value <= 2 ==> 2 <= stop.value)
    ensures start.None? ==>
      r.Unbounded? && fresh(r.generator) && r.generator.Valid()
      && !r.generator.started && r.generator.yielded == []
    ensures start.Some? && stop.None? ==> r == Listed(PrimesIn(2, start.value))
    ensures start.Some? && stop.Some? ==> r == Listed(PrimesIn(start.value, stop.value))
  {
    if start.None? {
      var g := new PrimeGenerator();
      return Unbounded(g);
    }
    if stop.None? {
      var values := PrimesUntil(start.value);
      return Listed(values);
    }
    var values := PrimesBetween(start.value, stop.value);
    return Listed(values);
  }
}
