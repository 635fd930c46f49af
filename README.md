# Ethash light cache and HonteStaking, modelled in Dafny

This project models the two algorithmic parts of the HonteD repository and
proves properties of them.

**The Ethash light cache** (`apps/honted_abci/native/ethashcache/src/lib.rs`)
is the cache-generation step of Ethash, following Appendix J of the Ethereum
Yellow Paper. It has three layers:

- `ethash_words.dfy` covers the bit and byte layer: word-wise `xor`, the
  little-endian `u32` and 4-byte conversions, and the 16-word / 64-byte hash
  serialisers.
- `ethash_size.dfy` covers the cache size: the `is_compose` trial division and
  the `get_cache_size` step-down loop.
- `ethash_cache.dfy` covers the seed and the cache: `create_cache_seed`,
  `initial_cache` and the three in-place mixing rounds of `make_cache_inner`.

Rust `u8` and `u32` are `bv8` and `bv32`, so shifts, masks, `^` and `+` keep
their fixed width. Rust's `[u32; 16]` and `[u8; 64]` are values, so they are
fixed-length sequences here. Each method fills a local `array` the way the
Rust function fills its `let mut` array. The mixing rounds overwrite the
entries of one `array<Hash>` in place, as `make_cache_inner` does with its
`Vec`. Each loop is proved against a reference function:
`XorWords`, `Serialized`, `Deserialized`, `SeedAfter`, `InitialCacheOf`,
`MixPrefix` and `CacheRounds`.

Keccak-256 and Keccak-512 come from a foreign library. They are a parameter
`k: Keccak` holding two functions, so every result holds for every choice of
hash. `HashArray` and `HashBytes` are `hash_array` and `hash_bytes` built on
those functions and on the reference serialisers.

**The HonteStaking contract** is specified here by the assertions of
`populus/tests/test_honte_staking.py`. The Solidity source is not part of
this model. `honte_staking.dfy` models it as follows:

- The contract is a class `HonteStakingContract`. Its fields are the
  configuration and the two tables `deposits(owner, epoch)` and
  `validatorSets(epoch, i)`.
- The token ledger is a class `Token` with a balance map.
- The block number is passed to each transaction as `now`.
- Each transaction returns an `Outcome`, either `Committed` or
  `Reverted(reason)`. A reverted transaction changes nothing.
- The admission rule for the next epoch's set is a pure function `Admit`,
  with lemmas for each of its cases.
- The invariant `Valid()` holds after every transaction:
  - every set is well formed: bounded, non-zero distinct owners, non-zero
    stakes;
  - epoch 0's set is empty;
  - the sum of all deposit slots is covered by the contract's token balance.

`staking_scenarios.dfy` replays each test of `test_honte_staking.py` as a
verified method, with the same configuration: epochs of 40 blocks, a maturity
margin of 5, at most 4 validators, and one ether minted to each account. The
assertions of each test body are the `ensures` of one method. The checks that
the `do_deposit` and `do_withdraw` fixtures make on the slot and the balance
follow from the contracts of Deposit and Withdraw. Where a test's own outcome
depends on those checks, the scenario also ensures them.

Some cases are not asserted by any test: an owner joining a set it is already
in, a tie for the smallest stake, a zero deposit, a join with nothing pending,
and the zero address as validator identity. For these the model makes its
own choices, each marked "not asserted by the tests" in the code:

- A second join to the same set adds the stake to the existing entry
  (`HonteStaking.AdmitAccumulates`).
- On a tie, the first smallest entry is the one ejected, and only by a
  strictly larger stake.
- A zero deposit or a join with nothing pending reverts with `ZeroStake`.
- A zero validator identity reverts with `InvalidIdentity`.

The unbonding period is 1. The test needs this value: a stake joined in epoch
0 must stay locked through epoch 2 and be paid out by `withdraw(3)` in
epoch 3, and `target + 1 + unbondingPeriod` is 3 only when the period is 1.

## Model

| member | source | states |
|---|---|---|
| EthashWords.Xor | apps/honted_abci/native/ethashcache/src/lib.rs:29-35 | every word of the result is the xor of the two inputs' words, i.e. the result is `XorWords(v1, v2)` |
| EthashWords.XorWordsCommutes | apps/honted_abci/native/ethashcache/src/lib.rs:29-35 | xor of hashes is commutative |
| EthashWords.XorWordsSelfIsZero | apps/honted_abci/native/ethashcache/src/lib.rs:29-35 | a hash xored with itself is all zeros |
| EthashWords.XorWordsCancels | apps/honted_abci/native/ethashcache/src/lib.rs:29-35 | xoring with the same hash twice gives back the original |
| EthashWords.XorTestVectors | apps/honted_abci/native/ethashcache/src/lib.rs:179-185 | the four xor test cases: 10^1=11, 1^10=11, 9^9=0, 16^256=272 in every word |
| EthashWords.LittleEndianToInt | apps/honted_abci/native/ethashcache/src/lib.rs:59-61 | the shifted bytes sum to less than 2^32, so the 32-bit additions never overflow, and the result is that sum |
| EthashWords.IntToLittleEndian | apps/honted_abci/native/ethashcache/src/lib.rs:51-57 | the conversion yields exactly four bytes |
| EthashWords.WordRoundTrip | apps/honted_abci/native/ethashcache/src/lib.rs:51-61 | reading back the four bytes of any `u32` gives that `u32` |
| EthashWords.LittleEndianRoundTrip | apps/honted_abci/native/ethashcache/src/lib.rs:51-61 | converting any four bytes to a word and back gives the same bytes |
| EthashWords.LittleEndianTestVectors | apps/honted_abci/native/ethashcache/src/lib.rs:187-206 | 10 and 1025 convert to and from `[10,0,0,0]` and `[1,4,0,0]`; the multi-byte words of the serialisation test give the expected bytes |
| EthashWords.WordsToBytesAt | apps/honted_abci/native/ethashcache/src/lib.rs:37-49 | byte `4i+j` of the reference serialisation is byte `j` of word `i` |
| EthashWords.BytesToWordsAt | apps/honted_abci/native/ethashcache/src/lib.rs:63-73 | word `i` of the reference deserialisation is read from bytes `4i..4i+4` |
| EthashWords.WordsRoundTrip | apps/honted_abci/native/ethashcache/src/lib.rs:37-73 | deserialising the serialisation of any word sequence gives it back |
| EthashWords.BytesRoundTrip | apps/honted_abci/native/ethashcache/src/lib.rs:37-73 | serialising the deserialisation of any byte sequence whose length is a multiple of 4 gives it back |
| EthashWords.SerializeRoundTrip | apps/honted_abci/native/ethashcache/src/lib.rs:37-73 | `deserialize_hash(serialize_hash(v)) == v` and `serialize_hash(deserialize_hash(b)) == b` |
| EthashWords.SerializedAt | apps/honted_abci/native/ethashcache/src/lib.rs:37-49 | the serialisation holds word `i` least significant byte first in bytes `4i..4i+3` |
| EthashWords.WordsToBytesAppend | apps/honted_abci/native/ethashcache/src/lib.rs:39-47 | serialising one more word appends its four bytes, which is what each loop iteration does |
| EthashWords.SerializeHash | apps/honted_abci/native/ethashcache/src/lib.rs:37-49 | byte `4i+j` of the output is byte `j` of `int_to_little_endian(v[i])`; the output is `Serialized(v)` |
| EthashWords.DeserializeHash | apps/honted_abci/native/ethashcache/src/lib.rs:63-73 | the loop keeps `v_idx == 4*ds_idx`, every slice is in bounds, it ends with all 16 words written, and word `i` is `little_endian_to_int(v[4i..4i+4])`, i.e. `Deserialized(v)` |
| EthashSize.ISqrt | apps/honted_abci/native/ethashcache/src/lib.rs:106 | the integer square root that bounds the trial division: `r*r <= n < (r+1)*(r+1)` |
| EthashSize.SqrtUnique | apps/honted_abci/native/ethashcache/src/lib.rs:106 | only one number has its square at most `n` and the next square above `n`, so any method computing such a bound computes `ISqrt(n)` |
| EthashSize.FloorSqrt | apps/honted_abci/native/ethashcache/src/lib.rs:106 | the loop computes `r` with `r*r <= n < (r+1)*(r+1)`, i.e. `ISqrt(n)`, the largest divisor bound worth trying |
| EthashSize.IsCompose | apps/honted_abci/native/ethashcache/src/lib.rs:105-113 | true exactly when the candidate has a divisor `d` with `2 <= d` and `d*d <= candidate`, which is exactly when it is at least 2 and not prime |
| EthashSize.SmallDivisorMeansComposite | apps/honted_abci/native/ethashcache/src/lib.rs:105-113 | having a divisor no larger than the square root is equivalent to being at least 2 and not prime |
| EthashSize.CofactorIsSmallDivisor | apps/honted_abci/native/ethashcache/src/lib.rs:105-113 | any proper divisor or its cofactor is at most the square root, so trial division up to the square root is enough |
| EthashSize.IsComposeTestVectors | apps/honted_abci/native/ethashcache/src/lib.rs:221-235 | 4, 9, 1234·4819, 171·173 and 16777213² are composite; 5, 2 and 173 are not |
| EthashSize.StartSize | apps/honted_abci/native/ethashcache/src/lib.rs:117 | the starting size is a multiple of 64 and holds at least 262143 hashes |
| EthashSize.LargestPrimeAtMost | apps/honted_abci/native/ethashcache/src/lib.rs:118-120 | the result is a prime at most `k`, and no prime lies between it and `k` |
| EthashSize.CacheSizeIsLargestPrimeMultiple | apps/honted_abci/native/ethashcache/src/lib.rs:115-122 | the cache size is a multiple of 64 no larger than the start, its number of hashes is prime, and it is the largest such value |
| EthashSize.CompositeStepsDown | apps/honted_abci/native/ethashcache/src/lib.rs:118-120 | a non-prime count of at least 2 is at least 4, so the loop subtracts only from sizes of at least 4 hashes; stepping down keeps the largest prime below unchanged |
| EthashSize.GetCacheSize | apps/honted_abci/native/ethashcache/src/lib.rs:115-122 | the result is `CacheSize(b)`; the `u64` subtraction in the loop never underflows |
| EthashCache.HashArrayDigest | apps/honted_abci/native/ethashcache/src/lib.rs:75-82 | `hash_array`: the bytes of the result are exactly the Keccak-512 digest of the input's serialised bytes |
| EthashCache.HashBytesDigest | apps/honted_abci/native/ethashcache/src/lib.rs:84-90 | `hash_bytes`: the bytes of the result are exactly the Keccak-512 digest of the seed |
| EthashCache.CreateCacheSeed | apps/honted_abci/native/ethashcache/src/lib.rs:132-139 | the seed is Keccak-256 applied `b / 30000` times to 32 zero bytes |
| EthashCache.SeedOfNextEpoch | apps/honted_abci/native/ethashcache/src/lib.rs:132-139 | the seed of the next epoch is the Keccak-256 of this epoch's seed |
| EthashCache.InitialCacheOf | apps/honted_abci/native/ethashcache/src/lib.rs:92-103 | length is `n` for `n >= 1` and 1 for `n = 0`; entry 0 is `hash_bytes(seed)`; each later entry is `hash_array` of the one before |
| EthashCache.InitialCache | apps/honted_abci/native/ethashcache/src/lib.rs:92-103 | the vector pushed by the loop is `InitialCacheOf(n, seed)` |
| EthashCache.MixEntry | apps/honted_abci/native/ethashcache/src/lib.rs:159-162 | one mixing step keeps the number of entries |
| EthashCache.MixEntryWrites | apps/honted_abci/native/ethashcache/src/lib.rs:159-162 | the step at `i` writes `hash_array` of the xor of its cyclic predecessor and the entry selected by its own first word modulo `n` |
| EthashCache.MixEntryKeepsOthers | apps/honted_abci/native/ethashcache/src/lib.rs:159-162 | the step at `i` writes entry `i` only |
| EthashCache.MixPrefixStepKeeps | apps/honted_abci/native/ethashcache/src/lib.rs:158-163 | the step at `m-1` leaves every other entry as it was |
| EthashCache.MixPrefixKeepsLater | apps/honted_abci/native/ethashcache/src/lib.rs:158-163 | entries at or after `i` are untouched by the first `i` steps |
| EthashCache.MixPrefixKeepsEarlier | apps/honted_abci/native/ethashcache/src/lib.rs:158-163 | once entry `j` has been mixed, later steps leave it alone |
| EthashCache.PredecessorIndex | apps/honted_abci/native/ethashcache/src/lib.rs:161 | `(i+n-1)%n` is `i-1`, or `n-1` for `i = 0` |
| EthashCache.RoundPredecessor | apps/honted_abci/native/ethashcache/src/lib.rs:158-163 | when step `i` runs, its predecessor is already mixed, except for entry 0, which sees the unmixed last entry |
| EthashCache.RoundSelected | apps/honted_abci/native/ethashcache/src/lib.rs:158-163 | when step `i` runs, entry `v` is already mixed exactly when `v < i` |
| EthashCache.StepEntry | apps/honted_abci/native/ethashcache/src/lib.rs:159-162 | step `i` sets entry `i` to `hash_array` of the xor of its predecessor and its selected entry, as the earlier steps left them |
| EthashCache.RoundEntry | apps/honted_abci/native/ethashcache/src/lib.rs:158-163 | entry `i` after a full round, expressed with the round's input and output only |
| EthashCache.MixRound | apps/honted_abci/native/ethashcache/src/lib.rs:158-163 | the in-place inner loop leaves the array equal to `MixPrefix(k, old, n)` |
| EthashCache.MakeCacheInner | apps/honted_abci/native/ethashcache/src/lib.rs:152-167 | the cache has `CacheSize(b)/64` entries and equals three rounds of mixing applied to the initial cache built from the seed of `b` |
| HonteStaking.CurrentEpoch | populus/tests/test_honte_staking.py:115-141 | `getCurrentEpoch()`: block `now` lies between the start of the returned epoch and the start of the next |
| HonteStaking.InJoinWindow | populus/tests/test_honte_staking.py:143-156 | a block is in the join window exactly when fewer than `epochLength - maturityMargin` blocks of its epoch have passed |
| HonteStaking.JoinWindowOfFirstEpochs | populus/tests/test_honte_staking.py:143-156 | the window is closed in each of the last `maturityMargin` blocks of epoch 0 and open at `start + epochLength + 1`, which is in epoch 1 |
| HonteStaking.IndexOfOwner | populus/tests/test_honte_staking.py:186-190 | finds the entry whose owner matches, or reports that no entry has that owner |
| HonteStaking.SmallestIndex | populus/tests/test_honte_staking.py:165-190 | the index of an entry with the smallest stake; every entry before it has a strictly larger stake |
| HonteStaking.Admit | populus/tests/test_honte_staking.py:158-205 | admission into the next set: a refusal is always `StakeTooSmall`; an admitted set keeps or grows its size, stays within `maxNumberOfValidators`, and contains an entry of the joining owner |
| HonteStaking.AdmitAccumulates | populus/tests/test_honte_staking.py:239-240 | a chosen behaviour, not asserted by the tests (the duplicate-join test is a `pass` stub): an owner already in the set adds its stake to its own entry in place, and the other entries are kept |
| HonteStaking.AdmitFailsExactly | populus/tests/test_honte_staking.py:192-205 | admission fails exactly when the owner is new, the set is full, and the stake is no larger than every incumbent's |
| HonteStaking.AdmitKeepsSetWellFormed | populus/tests/test_honte_staking.py:57-65 | admission keeps a set bounded, with non-zero distinct owners and non-zero stakes, so populated entries form a prefix |
| HonteStaking.AdmitIntoRoom | populus/tests/test_honte_staking.py:158-163 | a new owner joining a set with room is appended as `(stake, identity, owner)` |
| HonteStaking.AdmitEjectsSmallest | populus/tests/test_honte_staking.py:165-190 | a new owner beating some stake in a full set replaces the first smallest entry in place; the size stays `max`, the others are kept, and the ejected owner is gone |
| HonteStaking.EscrowCoversSlot | populus/tests/test_honte_staking.py:80-88 | any one deposit slot is covered by the sum of all slots, so a withdrawal can always be paid |
| HonteStaking.EscrowUpdate | populus/tests/test_honte_staking.py:68-88 | changing one slot changes the sum of all slots by the difference |
| HonteStaking.Token.Transfer | populus/tests/test_honte_staking.py:83-87 | moves `amount` between two accounts when the sender holds it; otherwise fails and changes nothing |
| HonteStaking.HonteStakingContract.constructor | populus/tests/test_honte_staking.py:35-47 | the contract starts in the deployment block with the given parameters, empty tables, and `Valid()` |
| HonteStaking.HonteStakingContract.ValidatorSets | populus/tests/test_honte_staking.py:57-65 | `validatorSets(epoch, i)` has the zero owner exactly at the indices past the populated entries |
| HonteStaking.HonteStakingContract.GetValidators | populus/tests/test_honte_staking.py:57-65 | reading entries from index 0 until the zero owner yields exactly the epoch's set |
| HonteStaking.HonteStakingContract.Deposit | populus/tests/test_honte_staking.py:67-77 | a deposit the caller can pay raises `deposits(caller, 0)` by exactly `amount` and moves the tokens into the contract; otherwise nothing changes; `Valid()` is kept |
| HonteStaking.HonteStakingContract.Join | populus/tests/test_honte_staking.py:109-217 | inside the window, with something pending, the entry `(pending, identity, caller)` is admitted into the next epoch's set; pending becomes 0 and the stake moves to slot `next + 1 + unbondingPeriod`; each refusal names its reason and changes nothing; `Valid()` is kept |
| HonteStaking.HonteStakingContract.Withdraw | populus/tests/test_honte_staking.py:79-141 | reverts `TooEarly` before epoch `e`, `NothingToWithdraw` on an empty slot; otherwise empties slot `e` and pays out exactly its amount; `Valid()` is kept |
| HonteStakingScenarios.LineupEntries | populus/tests/test_honte_staking.py:158-205 | accounts joining in turn build a set with one entry per account, in join order |
| HonteStakingScenarios.WithdrawEach | populus/tests/test_honte_staking.py:115-134 | each withdrawal from a locked or empty slot reverts with the matching reason and changes nothing |
| HonteStakingScenarios.DepositAndJoin | populus/tests/test_honte_staking.py:158-163 | a deposit followed by a join, into a set with room, commits and appends the account |
| HonteStakingScenarios.FillSet | populus/tests/test_honte_staking.py:158-163 | `maxNumberOfValidators` accounts can all deposit and join, filling the set in order |
| HonteStakingScenarios.JoinAndEject | populus/tests/test_honte_staking.py:178-184 | a larger newcomer joining the full set replaces the entry of `accounts[2]`, the smallest |
| HonteStakingScenarios.JoinTooSmall | populus/tests/test_honte_staking.py:201-205 | a one-wei stake is refused by a full set of one-ether stakes |
| HonteStakingScenarios.DeployDepositJoin | populus/tests/test_honte_staking.py:109-112 | a deposit then a join in epoch 0 locks the whole stake in slot 3 and nowhere else |
| HonteStakingScenarios.EmptyValidators | populus/tests/test_honte_staking.py:90-91 | epoch 0 has no validators |
| HonteStakingScenarios.DepositAndImmediateWithdraw | populus/tests/test_honte_staking.py:67-95 | the deposit shows as pending (the fixture check of line 76); withdrawing at once empties the slot and restores the balance (lines 86-87) |
| HonteStakingScenarios.CantWithdrawZero | populus/tests/test_honte_staking.py:79-107 | another account cannot withdraw; the owner's withdrawal empties the slot and restores the balance (lines 86-87); a second withdrawal of the same slot fails |
| HonteStakingScenarios.DepositJoinWithdrawSingleValidator | populus/tests/test_honte_staking.py:109-141 | after a join in epoch 0 every withdrawal fails in epochs 0, 1 and 2; `withdraw(3)` in epoch 3 pays the whole stake back and leaves slot 3 at 0 |
| HonteStakingScenarios.CantJoinOutsideJoinWindow | populus/tests/test_honte_staking.py:143-156 | joins in the last 5 blocks of epoch 0 revert with `OutsideJoinWindow`; a join one block into epoch 1 commits |
| HonteStakingScenarios.DepositJoinManyValidators | populus/tests/test_honte_staking.py:158-163 | four accounts join and all four are in the set |
| HonteStakingScenarios.EjectsSmallestValidators | populus/tests/test_honte_staking.py:165-190 | the set keeps 4 entries, `accounts[2]` is gone, and `(new_amount, new, new)` is in it |
| HonteStakingScenarios.CantEnterIfTooSmallToEject | populus/tests/test_honte_staking.py:192-205 | the small join reverts with `StakeTooSmall` |
| HonteStakingScenarios.DepositsAccumulateForJoin | populus/tests/test_honte_staking.py:207-217 | two deposits of one finney join as one entry of two finney owned by the depositor |
| HonteStakingScenarios.DepositsAccumulateForWithdraw | populus/tests/test_honte_staking.py:219-225 | two deposits of one finney leave two finney pending; one withdrawal empties the slot and raises the balance by two finney |

## Left out

- Keccak-256 and Keccak-512 (`tiny_keccak`, lib.rs:75-90 and 124-130) are a foreign library. They are the parameter `k: Keccak`. So the `hash_array` test vectors (lib.rs:208-219) and the `make_cache` test vector (lib.rs:237-243) cannot be checked.
- IsCompose: the source bounds trial division by `(candidate as f64).sqrt() as u64 + 1`; the model computes the exact integer square root with `FloorSqrt`. The two bounds agree for candidates below 2^52, which covers every `size / 64` the cache size reaches for practical block numbers. Above that, f64 rounding could change the bound by one.
- GetCacheSize: requires `2^24 + 2^17 * (b / 30000)` to fit in `u64`. The source would overflow otherwise, for block numbers around 4.2·10^18 and above. The same requirement is on MakeCacheInner.
- The Rustler NIF glue (`rustler_export_nifs!` and `make_cache`, lib.rs:141-150) is term encoding. It is left out, and so is the final conversion of the cache to `Vec<Vec<u32>>` (lib.rs:165-166): the model returns the entries as a sequence of hashes.
- IntToLittleEndian: its contract only gives the length. The round trip is the separate lemma `WordRoundTrip`.
- The HonteStaking Solidity source is not part of this model. The contract is modelled only as far as `test_honte_staking.py` asserts, plus the choices listed above for the cases the tests leave open.
- The tests that are only `pass` stubs (`test_honte_staking.py:227-242`) are not requirements. These cover continuation into the next epoch, joins after an eject and withdrawal, and historical lookup.
- Join does not model continuation, i.e. carrying the current epoch's stake into the next set. No test asserts it (`test_join_does_continue_in_validating_epoch` is a `pass` stub). A validator that joins the same next set again adds its new pending stake to its entry (`AdmitAccumulates`) and locks only that new stake.
- Events (`Deposit`, `Join`, `Eject`, `Withdraw`) have no effect on the tables and are left out.
- The token's `approve` / `transferFrom` allowance step, `mint` and `finishMinting` are left out. Token.Transfer stands for the transfer that a deposit or a withdrawal makes, and the accounts start with the minted balance.
- The constructor puts no upper bound on `maxNumberOfValidators`. The tests deploy with 4 and fix no bound.
- Transactions require a caller other than the contract's own account, and Join requires a non-zero caller. Ethereum does not produce transactions from either.
- `populus/tests/test_greeter.py` is an abandoned draft that contradicts the real tests; it is left out. So is `contracts/deploy.py`, which is deployment plumbing.
- The web3 fixtures and block-mining helpers of the test file (lines 16-55) are not modelled as such. The scenarios pass `now` explicitly. A transaction that the test makes without a jump first is given the deployment block, while the real chain mines each transaction in a later block. No outcome changes: all those blocks lie in epoch 0 and inside the join window.
- LittleEndianToInt: requires at least four bytes. The source indexes `le[0..3]` and would panic on a shorter slice (lib.rs:60). Every caller passes exactly four bytes.
