/** The probe sequence: two string hashes combined by double hashing. */
module Probing {

  /** The multipliers of the two hash functions. */
  const HashPrime1 := 151
  const HashPrime2 := 163

  function Pow(a: int, n: nat): int {
    if n == 0 then 1 else a * Pow(a, n - 1)
  }

  /** The hash accumulated over the first n characters of s: each step adds
      a^(|s| - i + 1) * s[i] and reduces modulo m. Exact integers stand in for the
      floating-point `pow` of ht_hash. */
  function HashAfter(s: string, a: int, m: int, n: nat): (h: int)
    requires m > 0 && n <= |s|
    ensures 0 <= h < m
  {
    if n == 0 then 0
    else (HashAfter(s, a, m, n - 1) + Pow(a, |s| - n + 2) * (s[n - 1] as int)) % m
  }

  /** The hash of s with multiplier a, a bucket index in [0, m). */
  function Hash(s: string, a: int, m: int): (h: int)
    requires m > 0
    ensures 0 <= h < m
  {
    HashAfter(s, a, m, |s|)
  }

  /** The bucket visited by attempt number `attempt` for `key` in a table of `numBuckets`
      buckets: (h1 + attempt * (h2 + 1)) mod numBuckets. A pure function of its arguments. */
  function Probe(key: string, numBuckets: int, attempt: nat): (index: nat)
    requires numBuckets > 0
    ensures index < numBuckets
  {
    (Hash(key, HashPrime1, numBuckets) + attempt * (Hash(key, HashPrime2, numBuckets) + 1)) % numBuckets
  }

  /** The probe sequence repeats with period numBuckets: a walk that has met neither an
      empty bucket nor its key within numBuckets attempts never will. */
  lemma ProbePeriodic(key: string, numBuckets: int, attempt: nat)
    requires numBuckets > 0
    ensures Probe(key, numBuckets, attempt + numBuckets) == Probe(key, numBuckets, attempt)
  {
    var h1 := Hash(key, HashPrime1, numBuckets);
    var step := Hash(key, HashPrime2, numBuckets) + 1;
    calc {
      (h1 + (attempt + numBuckets) * step) % numBuckets;
      { assert (attempt + numBuckets) * step == attempt * step + step * numBuckets; }
      (h1 + attempt * step + step * numBuckets) % numBuckets;
      { ShiftMod(h1 + attempt * step, step, numBuckets); }
      (h1 + attempt * step) % numBuckets;
    }
  }

  /** Every attempt, however late, visits the bucket of an attempt below numBuckets. */
  lemma {:induction false} ProbeMod(key: string, numBuckets: int, attempt: nat)
    requires numBuckets > 0
    ensures Probe(key, numBuckets, attempt) == Probe(key, numBuckets, attempt % numBuckets)
    decreases attempt
  {
    if attempt < numBuckets {
      SmallMod(attempt, numBuckets);
    } else {
      var earlier: nat := attempt - numBuckets;
      ProbeMod(key, numBuckets, earlier);
      ProbePeriodic(key, numBuckets, earlier);
      AddModulus(earlier, numBuckets);
      assert earlier + numBuckets == attempt;
    }
  }

  lemma {:induction false} ShiftMod(a: int, k: nat, m: int)
    requires m > 0
    ensures (a + k * m) % m == a % m
  {
    if k > 0 {
      ShiftMod(a, k - 1, m);
      var b := a + (k - 1) * m;
      assert a + k * m == b + m;
      AddModulus(b, m);
    }
  }

  lemma AddModulus(b: int, m: int)
    requires m > 0
    ensures (b + m) % m == b % m
  {
    var q, r := b / m, b % m;
    assert b == q * m + r;
    assert b + m == (q + 1) * m + r;
    var q', r' := (b + m) / m, (b + m) % m;
    assert b + m == q' * m + r';
    assert (q + 1 - q') * m == r' - r;
    if q + 1 - q' > 0 {
      MulAtLeast(q + 1 - q', m);
    } else if q + 1 - q' < 0 {
      assert (q' - q - 1) * m == r - r';
      MulAtLeast(q' - q - 1, m);
    }
  }

  lemma SmallMod(a: int, m: int)
    requires 0 <= a < m
    ensures a % m == a
  {
  }

  lemma {:induction false} MulAtLeast(d: int, m: int)
    requires d >= 1 && m > 0
    ensures d * m >= m
  {
    if d > 1 {
      MulAtLeast(d - 1, m);
      assert d * m == (d - 1) * m + m;
    }
  }
}
