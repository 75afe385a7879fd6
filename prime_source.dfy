/**
 * What the key generator relies on from its prime generator (the helper
 * module `MillerRabin`, whose code is not part of this model): the
 * promises of `gen_prime` and `gen_prime_range`, stated over exact
 * primality.  Their answers reach the model as parameters.
 */
module PrimeSource {
  import opened Arithmetic

  /** n is prime: at least 2 and without a divisor strictly between 1 and n. */
  ghost predicate IsPrime(n: nat) {
    n >= 2 && forall k :: 1 < k < n ==> !Divides(k, n)
  }

  /** r is an answer `gen_prime_range(lo, hi)` may give: a prime in [lo, hi). */
  ghost predicate GenPrimeRangeAnswer(lo: int, hi: int, r: nat) {
    IsPrime(r) && lo <= r < hi
  }
}
