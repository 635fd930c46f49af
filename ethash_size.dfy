/**
 * The size of the Ethash light cache for a block (Appendix J.2 of the Ethereum
 * Yellow Paper), as apps/honted_abci/native/ethashcache/src/lib.rs computes it
 * at lines 105-122: start from the epoch's nominal size less one hash, and step
 * down one hash at a time until the number of hashes is not composite.
 */
module EthashSize {
  import opened EthashWords

  const CACHE_BYTES_INIT: nat := 16777216
  const CACHE_BYTES_GROWTH: nat := 131072
  const EPOCH_LENGTH: nat := 30000

  /** Rust `u64`. */
  const U64_LIMIT: nat := 0x1_0000_0000_0000_0000
  type u64 = x: int | 0 <= x < U64_LIMIT

  ghost predicate IsPrime(p: nat)
  {
    p >= 2 && forall d :: 2 <= d < p ==> p % d != 0
  }

  /** What the loop of `is_compose` looks for: a divisor from 2 up to the square root. */
  ghost predicate HasSmallDivisor(n: nat)
  {
    exists d: nat :: 2 <= d && d * d <= n && n % d == 0
  }

  /** Integer square root: the specification of `FloorSqrt`. */
  ghost function ISqrt(n: nat): (r: nat)
    ensures r * r <= n < (r + 1) * (r + 1)
  {
    if n == 0 then 0
    else
      var r := ISqrt(n - 1);
      if (r + 1) * (r + 1) <= n then r + 1 else r
  }

  lemma SquareMonotonic(a: nat, b: nat)
    requires a <= b
    ensures a * a <= b * b
  {
    assert a * a <= a * b <= b * b;
  }

  /** At most one number has its square at most `n` and the next square above `n`. */
  lemma SqrtUnique(n: nat, r: nat, s: nat)
    requires r * r <= n < (r + 1) * (r + 1)
    requires s * s <= n < (s + 1) * (s + 1)
    ensures r == s
  {
    if r < s {
      SquareMonotonic(r + 1, s);
    } else if s < r {
      SquareMonotonic(s + 1, r);
    }
  }

  /**
   * The bound of the trial division in `is_compose` (lib.rs:106), where the
   * source takes `(candidate as f64).sqrt() as u64`: counts up to the largest
   * number whose square does not exceed `n`.
   */
  method FloorSqrt(n: u64) returns (r: nat)
    ensures r * r <= n < (r + 1) * (r + 1)
    ensures r == ISqrt(n)
  {
    r := 0;
    while (r + 1) * (r + 1) <= n
      invariant r * r <= n && r <= n
      decreases n - r
    {
      MulLeq(1, r + 1, r + 1);
      r := r + 1;
    }
    SqrtUnique(n, r, ISqrt(n));
  }

  /**
   * `is_compose` (lib.rs:105-113): trial division by 2, 3, ... up to the
   * integer square root, returning at the first divisor found.
   */
  method IsCompose(candidate: u64) returns (composite: bool)
    ensures composite <==> HasSmallDivisor(candidate)
    ensures composite <==> candidate >= 2 && !IsPrime(candidate)
  {
    var root := FloorSqrt(candidate);
    var maximalDivisor := root + 1;
    var i := 2;
    while i < maximalDivisor
      invariant 2 <= i
      invariant forall d :: 2 <= d < i ==> candidate % d != 0
    {
      if candidate % i == 0 {
        assert i * i <= candidate by {
          SquareMonotonic(i, maximalDivisor - 1);
        }
        SmallDivisorMeansComposite(candidate);
        return true;
      }
      i := i + 1;
    }
    if HasSmallDivisor(candidate) {
      var d: nat :| 2 <= d && d * d <= candidate && candidate % d == 0;
      if d >= maximalDivisor {
        SquareMonotonic(maximalDivisor, d);
      }
      assert false;
    }
    SmallDivisorMeansComposite(candidate);
    composite := false;
  }

  lemma MulStrictlyMonotonic(a: nat, b: nat, c: nat)
    requires a < b && 0 < c
    ensures a * c < b * c
  {
  }

  /** A multiple of d leaves no remainder. */
  lemma MultipleHasNoRemainder(k: nat, d: nat)
    requires 0 < d
    ensures (k * d) % d == 0
  {
    var q, r := (k * d) / d, (k * d) % d;
    assert d * (k - q) == r;
    if k - q >= 1 {
      MulLeq(1, k - q, d);
    } else if k - q <= -1 {
      MulLeq(1, q - k, d);
    }
  }

  /** For n >= 2, a divisor up to the square root exists exactly when n is not prime. */
  lemma SmallDivisorMeansComposite(n: nat)
    ensures HasSmallDivisor(n) <==> n >= 2 && !IsPrime(n)
  {
    if HasSmallDivisor(n) {
      var d: nat :| 2 <= d && d * d <= n && n % d == 0;
      MulStrictlyMonotonic(1, d, d);
      assert 2 <= d < n && n % d == 0;
    }
    if n >= 2 && !IsPrime(n) {
      var d :| 2 <= d < n && n % d == 0;
      CofactorIsSmallDivisor(n, d);
    }
  }

  /** A divisor strictly between 1 and n, or its cofactor, is at most the square root. */
  lemma CofactorIsSmallDivisor(n: nat, d: nat)
    requires 2 <= d < n && n % d == 0
    ensures HasSmallDivisor(n)
  {
    var e := n / d;
    assert n == e * d;
    assert e >= 2;
    if d * d <= n {
      assert 2 <= d && d * d <= n && n % d == 0;
    } else {
      assert e < d;
      MulStrictlyMonotonic(e, d, e);
      MultipleHasNoRemainder(d, e);
      assert 2 <= e && e * e <= n && n % e == 0;
    }
  }

  lemma MulLeq(a: nat, b: nat, c: nat)
    requires a <= b
    ensures a * c <= b * c
  {
  }

  /** The outcomes that lib.rs:222-235 expects of `is_compose`. */
  lemma IsComposeTestVectors()
    ensures HasSmallDivisor(4) && HasSmallDivisor(9) && HasSmallDivisor(1234 * 4819)
    ensures HasSmallDivisor(171 * 173) && HasSmallDivisor(16777213 * 16777213)
    ensures !HasSmallDivisor(5) && !HasSmallDivisor(2) && !HasSmallDivisor(173)
  {
    assert 2 * 2 <= 4 && 4 % 2 == 0;
    assert 3 * 3 <= 9 && 9 % 3 == 0;
    assert 1234 * 1234 <= 1234 * 4819 && (1234 * 4819) % 1234 == 0;
    assert 171 * 171 <= 171 * 173 && (171 * 173) % 171 == 0;
    assert 16777213 * 16777213 <= 16777213 * 16777213 && (16777213 * 16777213) % 16777213 == 0;
    forall d: nat | 2 <= d && d * d <= 173
      ensures 173 % d != 0
    {
      if d >= 14 {
        SquareMonotonic(14, d);
      }
      assert d < 14;
    }
    forall d: nat | 2 <= d && d * d <= 5
      ensures 5 % d != 0
    {
      if d >= 3 {
        SquareMonotonic(3, d);
      }
    }
  }

  /** The nominal size less one hash: where `get_cache_size` starts (lib.rs:117). */
  function StartSize(blockNumber: nat): (size: nat)
    ensures size % HASH_SIZE_BYTES == 0
    ensures size / HASH_SIZE_BYTES >= 262143
  {
    CACHE_BYTES_INIT + CACHE_BYTES_GROWTH * (blockNumber / EPOCH_LENGTH) - HASH_SIZE_BYTES
  }

  /** The largest prime not above k. */
  ghost function LargestPrimeAtMost(k: nat): (p: nat)
    requires k >= 2
    ensures 2 <= p <= k && IsPrime(p)
    ensures forall q :: p < q <= k ==> !IsPrime(q)
  {
    if IsPrime(k) then k else LargestPrimeAtMost(k - 1)
  }

  /** The cache size the source computes: the largest multiple of the hash size not above
    * the start whose number of hashes is prime. */
  ghost function CacheSize(blockNumber: nat): nat
  {
    HASH_SIZE_BYTES * LargestPrimeAtMost(StartSize(blockNumber) / HASH_SIZE_BYTES)
  }

  /**
   * The cache size is a multiple of 64 whose number of hashes is prime, is at
   * most the start, and is the largest such value.
   */
  lemma CacheSizeIsLargestPrimeMultiple(blockNumber: nat)
    ensures CacheSize(blockNumber) % HASH_SIZE_BYTES == 0
    ensures CacheSize(blockNumber) <= StartSize(blockNumber)
    ensures IsPrime(CacheSize(blockNumber) / HASH_SIZE_BYTES)
    ensures forall s: nat :: CacheSize(blockNumber) < s <= StartSize(blockNumber) && s % HASH_SIZE_BYTES == 0
              ==> !IsPrime(s / HASH_SIZE_BYTES)
  {
    var start := StartSize(blockNumber);
    var p := LargestPrimeAtMost(start / HASH_SIZE_BYTES);
    assert CacheSize(blockNumber) / HASH_SIZE_BYTES == p;
    forall s: nat | CacheSize(blockNumber) < s <= start && s % HASH_SIZE_BYTES == 0
      ensures !IsPrime(s / HASH_SIZE_BYTES)
    {
      assert p < s / HASH_SIZE_BYTES <= start / HASH_SIZE_BYTES;
    }
  }

  /** 2 and 3 are prime, so a number that is at least 2 and not prime is at least 4. */
  lemma CompositeStepsDown(k: nat)
    requires k >= 2 && !IsPrime(k)
    ensures k >= 4
    ensures LargestPrimeAtMost(k) == LargestPrimeAtMost(k - 1)
  {
    assert IsPrime(2);
    assert IsPrime(3);
  }

  /**
   * `get_cache_size` (lib.rs:115-122). The source computes the start in `u64`;
   * the caller must keep the block number small enough for it to fit. Every
   * step down subtracts one hash from a size of at least four hashes, so the
   * `u64` subtraction never underflows.
   */
  method GetCacheSize(blockNumber: u64) returns (size: u64)
    requires CACHE_BYTES_INIT + CACHE_BYTES_GROWTH * (blockNumber / EPOCH_LENGTH) < U64_LIMIT
    ensures size == CacheSize(blockNumber)
  {
    var hashSizeBytes: u64 := HASH_SIZE_BYTES;
    size := CACHE_BYTES_INIT + CACHE_BYTES_GROWTH * (blockNumber / EPOCH_LENGTH) - hashSizeBytes;
    var composite := IsCompose(size / hashSizeBytes);
    while composite
      invariant size % HASH_SIZE_BYTES == 0 && size / HASH_SIZE_BYTES >= 3
      invariant composite <==> size / HASH_SIZE_BYTES >= 2 && !IsPrime(size / HASH_SIZE_BYTES)
      invariant LargestPrimeAtMost(size / HASH_SIZE_BYTES) == LargestPrimeAtMost(StartSize(blockNumber) / HASH_SIZE_BYTES)
      decreases size
    {
      CompositeStepsDown(size / HASH_SIZE_BYTES);
      size := size - hashSizeBytes;
      composite := IsCompose(size / hashSizeBytes);
    }
  }
}
