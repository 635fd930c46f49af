/**
 * Seed and cache of the Ethash light cache (Appendix J.3 of the Ethereum
 * Yellow Paper), as apps/honted_abci/native/ethashcache/src/lib.rs builds
 * them at lines 75-167.
 *
 * Keccak-256 and Keccak-512 come from a library outside the model; they are
 * given to every operation as a `Keccak` value, and nothing is assumed of
 * them but their input and output lengths.
 */
module EthashCache {
  import opened EthashWords
  import opened EthashSize

  const KEC_256_HASH_SIZE_BYTES: nat := 32
  const CACHE_ROUNDS: nat := 3

  /** A Keccak-256 digest, Rust `[u8; KEC_256_HASH_SIZE_BYTES]`. */
  type Seed = s: seq<Byte> | |s| == KEC_256_HASH_SIZE_BYTES
    witness seq(32, _ => 0)

  /** The two hash functions of the library. */
  datatype Keccak = Keccak(keccak256: Seed -> Seed, keccak512: seq<Byte> -> HashOctets)

  /** `hash_array` (lib.rs:75-82): Keccak-512 of the serialised hash, read back as words. */
  function HashArray(k: Keccak, v: Hash): Hash
  {
    Deserialized(k.keccak512(Serialized(v)))
  }

  /** `hash_bytes` (lib.rs:84-90): Keccak-512 of a seed, read as words. */
  function HashBytes(k: Keccak, seed: Seed): Hash
  {
    Deserialized(k.keccak512(seed))
  }

  /** Serialising `hash_array`'s result gives exactly the Keccak-512 digest of the serialised input. */
  lemma HashArrayDigest(k: Keccak, v: Hash)
    ensures Serialized(HashArray(k, v)) == k.keccak512(Serialized(v))
  {
    var digest := k.keccak512(Serialized(v));
    SerializeRoundTrip(Deserialized(digest), digest);
  }

  /** Serialising `hash_bytes`'s result gives exactly the Keccak-512 digest of the seed. */
  lemma HashBytesDigest(k: Keccak, seed: Seed)
    ensures Serialized(HashBytes(k, seed)) == k.keccak512(seed)
  {
    var digest := k.keccak512(seed);
    SerializeRoundTrip(Deserialized(digest), digest);
  }

  /** Keccak-256 applied `hashes` times to 32 zero bytes. */
  function SeedAfter(k: Keccak, hashes: nat): Seed
  {
    if hashes == 0 then seq(KEC_256_HASH_SIZE_BYTES, _ => 0) else k.keccak256(SeedAfter(k, hashes - 1))
  }

  /** `create_cache_seed` (lib.rs:132-139): one Keccak-256 per elapsed epoch. */
  method CreateCacheSeed(k: Keccak, blockNumber: u64) returns (seed: Seed)
    ensures seed == SeedAfter(k, blockNumber / EPOCH_LENGTH)
  {
    var numHashes := blockNumber / EPOCH_LENGTH;
    seed := seq(KEC_256_HASH_SIZE_BYTES, _ => 0);
    for i := 0 to numHashes
      invariant seed == SeedAfter(k, i)
    {
      seed := k.keccak256(seed);
    }
  }

  /** The seed of the next epoch is the Keccak-256 of this epoch's seed. */
  lemma SeedOfNextEpoch(k: Keccak, blockNumber: nat)
    ensures SeedAfter(k, (blockNumber + EPOCH_LENGTH) / EPOCH_LENGTH)
            == k.keccak256(SeedAfter(k, blockNumber / EPOCH_LENGTH))
  {
  }

  /**
   * The cache before mixing: the Keccak-512 of the seed, then each entry the
   * hash of the one before. The source's range `1..cache_size` is empty for a
   * size of 0 or 1, so both give the one first entry.
   */
  function InitialCacheOf(k: Keccak, cacheSize: nat, seed: Seed): (o: seq<Hash>)
    ensures |o| == if cacheSize == 0 then 1 else cacheSize
    ensures o[0] == HashBytes(k, seed)
    ensures forall i :: 1 <= i < |o| ==> o[i] == HashArray(k, o[i - 1])
  {
    if cacheSize <= 1 then [HashBytes(k, seed)]
    else
      var o := InitialCacheOf(k, cacheSize - 1, seed);
      o + [HashArray(k, o[|o| - 1])]
  }

  /** `initial_cache` (lib.rs:92-103): pushes each new entry onto a growing vector. */
  method InitialCache(k: Keccak, cacheSize: u64, seed: Seed) returns (o: seq<Hash>)
    ensures o == InitialCacheOf(k, cacheSize, seed)
  {
    o := [];
    var e := HashBytes(k, seed);
    o := o + [e];
    var i := 1;
    while i < cacheSize
      invariant 1 <= i <= if cacheSize == 0 then 1 else cacheSize
      invariant o == InitialCacheOf(k, i, seed) && e == o[|o| - 1]
    {
      e := HashArray(k, e);
      o := o + [e];
      i := i + 1;
    }
    if cacheSize == 0 {
      assert InitialCacheOf(k, 0, seed) == [HashBytes(k, seed)] == InitialCacheOf(k, 1, seed);
    }
  }

  /**
   * One step of a mixing round at index `i`: the entry becomes the hash of
   * its predecessor (cyclically) xored with the entry its own first word
   * selects. All other entries are kept.
   */
  function MixEntry(k: Keccak, o: seq<Hash>, i: nat): (r: seq<Hash>)
    requires i < |o|
    ensures |r| == |o|
  {
    var n := |o|;
    var v := o[i][0] as int % n;
    o[i := HashArray(k, XorWords(o[(i + n - 1) % n], o[v]))]
  }

  /** A round after its first `i` steps, each done in place on the result of the last. */
  function MixPrefix(k: Keccak, o: seq<Hash>, i: nat): (r: seq<Hash>)
    requires i <= |o|
    ensures |r| == |o|
  {
    if i == 0 then o else MixEntry(k, MixPrefix(k, o, i - 1), i - 1)
  }

  /** `rounds` full rounds of mixing. */
  function CacheRounds(k: Keccak, o: seq<Hash>, rounds: nat): (r: seq<Hash>)
    ensures |r| == |o|
  {
    if rounds == 0 then o
    else
      var p := CacheRounds(k, o, rounds - 1);
      MixPrefix(k, p, |p|)
  }

  /** The step at `i` changes entry `i` only. */
  /**
   * The step at `i` writes `hash_array` of its cyclic predecessor xored with
   * the entry that its own first word selects, modulo the number of entries.
   */
  lemma MixEntryWrites(k: Keccak, o: seq<Hash>, i: nat)
    requires i < |o|
    ensures MixEntry(k, o, i)[i] == HashArray(k, XorWords(o[if i == 0 then |o| - 1 else i - 1], o[o[i][0] as int % |o|]))
  {
    PredecessorIndex(i, |o|);
  }

  lemma MixEntryKeepsOthers(k: Keccak, o: seq<Hash>, i: nat, j: nat)
    requires i < |o| && j < |o| && j != i
    ensures MixEntry(k, o, i)[j] == o[j]
  {
  }

  /** The step at `m - 1` leaves every other entry as it was. */
  lemma MixPrefixStepKeeps(k: Keccak, o: seq<Hash>, m: nat, j: nat)
    requires 0 < m <= |o| && j < |o| && j != m - 1
    ensures MixPrefix(k, o, m)[j] == MixPrefix(k, o, m - 1)[j]
  {
    MixEntryKeepsOthers(k, MixPrefix(k, o, m - 1), m - 1, j);
  }

  /** Steps at indices below `i` leave entry `j >= i` as it was. */
  lemma {:induction false} MixPrefixKeepsLater(k: Keccak, o: seq<Hash>, i: nat, j: nat)
    requires i <= j < |o|
    ensures MixPrefix(k, o, i)[j] == o[j]
    decreases i
  {
    if i > 0 {
      MixPrefixKeepsLater(k, o, i - 1, j);
      MixPrefixStepKeeps(k, o, i, j);
    }
  }

  /** Once the step at `j` is done, later steps leave entry `j` alone. */
  lemma {:induction false} MixPrefixKeepsEarlier(k: Keccak, o: seq<Hash>, i: nat, m: nat, j: nat)
    requires j < i <= m <= |o|
    ensures MixPrefix(k, o, m)[j] == MixPrefix(k, o, i)[j]
    decreases m
  {
    if m > i {
      MixPrefixKeepsEarlier(k, o, i, m - 1, j);
      MixPrefixStepKeeps(k, o, m, j);
    }
  }

  /** The cyclic predecessor of index `i` among `n` entries. */
  lemma PredecessorIndex(i: nat, n: nat)
    requires i < n
    ensures (i + n - 1) % n == if i == 0 then n - 1 else i - 1
  {
    var x := i + n - 1;
    var q, r := x / n, x % n;
    assert x == n * q + r;
    if q >= 2 {
      MulLeq(2, q, n);
    } else if q <= -1 {
      MulLeq(1, -q, n);
    }
  }

  /**
   * When the step at `i` runs, its predecessor entry is already the new one,
   * except for entry 0, whose predecessor, the last entry, is not yet mixed.
   */
  lemma RoundPredecessor(k: Keccak, o: seq<Hash>, i: nat)
    requires i < |o|
    ensures var n := |o|;
            MixPrefix(k, o, i)[(i + n - 1) % n] == if i == 0 then o[n - 1] else MixPrefix(k, o, n)[i - 1]
  {
    var n := |o|;
    PredecessorIndex(i, n);
    if i == 0 {
      MixPrefixKeepsLater(k, o, 0, n - 1);
    } else {
      MixPrefixKeepsEarlier(k, o, i, n, i - 1);
    }
  }

  /** When the step at `i` runs, entry `v` is the new one exactly when it lies before `i`. */
  lemma RoundSelected(k: Keccak, o: seq<Hash>, i: nat, v: nat)
    requires i < |o| && v < |o|
    ensures MixPrefix(k, o, i)[v] == if v < i then MixPrefix(k, o, |o|)[v] else o[v]
  {
    if v < i {
      MixPrefixKeepsEarlier(k, o, i, |o|, v);
    } else {
      MixPrefixKeepsLater(k, o, i, v);
    }
  }

  /**
   * Entry `i` after a whole round, in terms of the round's input `o` and its
   * output `r`: the predecessor is already the new one (except for entry 0,
   * whose predecessor, the last entry, is not yet mixed), and the selected
   * entry is the new one exactly when it lies before `i`.
   */
  lemma RoundEntry(k: Keccak, o: seq<Hash>, i: nat)
    requires i < |o|
    ensures var n := |o|;
            var r := MixPrefix(k, o, n);
            var v := o[i][0] as int % n;
            r[i] == HashArray(k, XorWords(if i == 0 then o[n - 1] else r[i - 1], if v < i then r[v] else o[v]))
  {
    var n := |o|;
    var v := o[i][0] as int % n;
    MixPrefixKeepsLater(k, o, i, i);
    RoundPredecessor(k, o, i);
    RoundSelected(k, o, i, v);
    MixPrefixKeepsEarlier(k, o, i + 1, n, i);
    StepEntry(k, o, i);
  }

  /** The step at `i` sets entry `i` from the entries as the earlier steps left them. */
  lemma StepEntry(k: Keccak, o: seq<Hash>, i: nat)
    requires i < |o|
    ensures var n := |o|;
            var before := MixPrefix(k, o, i);
            MixPrefix(k, o, i + 1)[i]
              == HashArray(k, XorWords(before[(i + n - 1) % n], before[before[i][0] as int % n]))
  {
  }

  /** One mixing round over the whole array, in place (the inner loop of lib.rs:158-163). */
  method MixRound(k: Keccak, o: array<Hash>)
    requires o.Length > 0
    modifies o
    ensures o[..] == MixPrefix(k, old(o[..]), o.Length)
  {
    var n := o.Length;
    ghost var start := o[..];
    for i := 0 to n
      invariant o[..] == MixPrefix(k, start, i)
    {
      ghost var current := o[..];
      var index := i;
      var v := (o[index][0] as int) % n;
      var predecessor := (i + n - 1) % n;
      var xored := Xor(o[predecessor], o[v]);
      o[index] := HashArray(k, xored);
      assert o[..] == MixEntry(k, current, i);
    }
  }

  /**
   * `make_cache_inner` (lib.rs:152-167): sizes the cache, derives the seed,
   * builds the initial cache of `n = cache_size / 64` entries, then mixes it
   * in place for `CACHE_ROUNDS` rounds. Every index it uses lies in `0..n`.
   */
  method MakeCacheInner(k: Keccak, blockNumber: u64) returns (cache: seq<Hash>)
    requires CACHE_BYTES_INIT + CACHE_BYTES_GROWTH * (blockNumber / EPOCH_LENGTH) < U64_LIMIT
    ensures HASH_SIZE_BYTES * |cache| == CacheSize(blockNumber)
    ensures cache == CacheRounds(k, InitialCacheOf(k, CacheSize(blockNumber) / HASH_SIZE_BYTES,
                                                   SeedAfter(k, blockNumber / EPOCH_LENGTH)), CACHE_ROUNDS)
  {
    var cacheSize := GetCacheSize(blockNumber);
    var seed := CreateCacheSeed(k, blockNumber);
    var n := cacheSize / HASH_SIZE_BYTES;
    CacheSizeIsLargestPrimeMultiple(blockNumber);
    var init := InitialCache(k, n, seed);
    var o := new Hash[n](j requires 0 <= j < n => init[j]);
    assert o[..] == init;
    for round := 0 to CACHE_ROUNDS
      invariant o[..] == CacheRounds(k, init, round)
    {
      MixRound(k, o);
    }
    cache := o[..];
  }
}
