/** Bucket counts are primes: `next_prime` rounds a requested base size up to a prime.
    prime.h, which provides next_prime, is not part of this model; this module is a
    stand-in with the behaviour its callers rely on. */
module Prime {

  /** n is a prime: at least 2, with no divisor in [2, n). */
  predicate IsPrime(n: int) {
    n >= 2 && NoDivisorFrom(n, 2)
  }

  /** No d' with d <= d' < n divides n (trial division, written so that it evaluates). */
  predicate NoDivisorFrom(n: int, d: int)
    requires d >= 2
    ensures NoDivisorFrom(n, d) <==> forall e :: d <= e < n ==> n % e != 0
    decreases n - d
  {
    d >= n || (n % d != 0 && NoDivisorFrom(n, d + 1))
  }

  /** Scans k, k+1, ..., limit and returns the first prime, or `limit` if none comes earlier. */
  function SearchPrime(k: int, limit: int): (p: int)
    requires k <= limit
    ensures k <= p <= limit
    ensures IsPrime(p) || p == limit
    ensures forall q :: k <= q < p ==> !IsPrime(q)
    decreases limit - k
  {
    if k == limit || IsPrime(k) then k else SearchPrime(k + 1, limit)
  }

  /** The smallest prime that is at least x. The scan stops at twice its start, where
      Bertrand's postulate guarantees a prime; that theorem is not proved here, so the
      contract admits the bound itself as a result. */
  function NextPrime(x: int): (p: int)
    ensures p >= x && p >= 2
    ensures IsPrime(p) || p == 2 * (if x < 2 then 2 else x)
    ensures forall q :: x <= q < p ==> !IsPrime(q)
  {
    var start := if x < 2 then 2 else x;
    SearchPrime(start, 2 * start)
  }
}
