/**
 * The HonteStaking contract: a deposit ledger and one bounded validator set
 * per epoch, driven by `deposit`, `join` and `withdraw` transactions.
 *
 * The contract's own source is not part of this model; its rules are the
 * ones that the assertions of populus/tests/test_honte_staking.py fix. Where
 * the tests leave a case open (a second join to the same set, equal stakes
 * when the set is full, a zero deposit or a join with nothing pending), the
 * model makes a choice of its own and marks it "not asserted by the tests".
 *
 * Time is the block number, passed to every operation as `now`; the token is
 * an external ledger, modelled as a class holding a balance map.
 */
module HonteStaking {
  import opened Wrappers

  type Address = nat

  const ZERO_ADDRESS: Address := 0

  /** Epochs a stake stays bonded after the epoch it validates; see Join. */
  const UNBONDING_PERIOD: nat := 1

  /** An entry of `validatorSets(epoch, i)`: `(stake, validator identity, owner)`. */
  datatype Validator = Validator(stake: nat, validator: Address, owner: Address)

  /** What `validatorSets(epoch, i)` reads beyond the populated entries. */
  const EMPTY_SLOT: Validator := Validator(0, ZERO_ADDRESS, ZERO_ADDRESS)

  datatype StakingError =
    | TransferRejected    // the token ledger refused to move a deposit
    | ZeroStake           // a zero deposit, or a join with nothing pending (not asserted by the tests)
    | InvalidIdentity     // the zero address as validator identity (not asserted by the tests)
    | OutsideJoinWindow   // the last `maturityMargin` blocks of an epoch
    | StakeTooSmall       // the set is full and the stake does not beat the smallest
    | TooEarly            // the deposit is still locked
    | NothingToWithdraw   // the slot is empty

  /** How a transaction ends: it commits, or it reverts and changes nothing. */
  datatype Outcome = Committed | Reverted(reason: StakingError)

  /** The block the contract was created in, and the constructor's parameters. */
  datatype Config = Config(startBlock: nat, epochLength: nat, maturityMargin: nat, maxNumberOfValidators: nat)

  predicate ValidConfig(c: Config)
  {
    0 < c.maturityMargin && 2 * c.maturityMargin < c.epochLength && 0 < c.maxNumberOfValidators
  }

  type StakingConfig = c: Config | ValidConfig(c) witness Config(0, 3, 1, 1)

  // ---------------------------------------------------------------- clock

  /** `getCurrentEpoch()`: the epoch that block `now` lies in. */
  function CurrentEpoch(c: StakingConfig, now: nat): (e: nat)
    requires c.startBlock <= now
    ensures EpochStart(c, e) <= now < EpochStart(c, e + 1)
  {
    var x := now - c.startBlock;
    assert x == x / c.epochLength * c.epochLength + x % c.epochLength;
    x / c.epochLength
  }

  function EpochStart(c: StakingConfig, epoch: nat): nat
  {
    c.startBlock + epoch * c.epochLength
  }

  /**
   * Joins are accepted except in the last `maturityMargin` blocks of an epoch:
   * block `now` is in the window exactly when fewer than `epochLength -
   * maturityMargin` blocks of its epoch have passed.
   */
  predicate InJoinWindow(c: StakingConfig, now: nat): (open: bool)
    requires c.startBlock <= now
    ensures open <==> now - EpochStart(c, CurrentEpoch(c, now)) < c.epochLength - c.maturityMargin
  {
    var x := now - c.startBlock;
    assert x == x / c.epochLength * c.epochLength + x % c.epochLength;
    x % c.epochLength < c.epochLength - c.maturityMargin
  }

  /** The epoch that a join stakes for: the next one. */
  function TargetEpoch(c: StakingConfig, now: nat): nat
    requires c.startBlock <= now
  {
    CurrentEpoch(c, now) + 1
  }

  /** The deposit slot that a join for `target` locks its stake in. */
  function UnlockEpoch(target: nat): nat
  {
    target + 1 + UNBONDING_PERIOD
  }

  /** Division of a block offset that lies inside the first epoch. */
  lemma DivModWithinFirst(x: nat, d: nat)
    requires x < d
    ensures x / d == 0 && x % d == x
  {
  }

  /** Division of a block offset that lies inside the second epoch. */
  lemma DivModWithinSecond(x: nat, d: nat)
    requires x < d
    ensures (d + x) / d == 1 && (d + x) % d == x
  {
  }

  /**
   * The join-window test: in each of the last `maturityMargin` blocks of epoch
   * 0 the window is closed, and one block into epoch 1 it is open again.
   */
  lemma JoinWindowOfFirstEpochs(c: StakingConfig, k: nat)
    requires k < c.maturityMargin
    ensures !InJoinWindow(c, c.startBlock + c.epochLength - c.maturityMargin + k)
    ensures CurrentEpoch(c, c.startBlock + c.epochLength - c.maturityMargin + k) == 0
    ensures InJoinWindow(c, c.startBlock + c.epochLength + 1)
    ensures CurrentEpoch(c, c.startBlock + c.epochLength + 1) == 1
  {
    DivModWithinFirst(c.epochLength - c.maturityMargin + k, c.epochLength);
    DivModWithinSecond(1, c.epochLength);
  }

  // ------------------------------------------------------- validator sets

  /**
   * A validator set as stored: at most `maxValidators` populated entries,
   * each with a stake and a non-zero owner, no owner twice.
   */
  ghost predicate WellFormedSet(s: seq<Validator>, maxValidators: nat)
  {
    && |s| <= maxValidators
    && (forall i :: 0 <= i < |s| ==> s[i].owner != ZERO_ADDRESS && s[i].stake > 0)
    && (forall i, j :: 0 <= i < j < |s| ==> s[i].owner != s[j].owner)
  }

  /** Where `owner` sits in the set, if anywhere. */
  function IndexOfOwner(s: seq<Validator>, owner: Address): (r: Option<nat>)
    ensures r.Some? ==> r.value < |s| && s[r.value].owner == owner
    ensures r.None? ==> forall j :: 0 <= j < |s| ==> s[j].owner != owner
  {
    if s == [] then None
    else if s[0].owner == owner then Some(0)
    else match IndexOfOwner(s[1..], owner)
      case None => None
      case Some(j) => Some(j + 1)
  }

  /** The first entry of smallest stake (the tie-break is not asserted by the tests). */
  function SmallestIndex(s: seq<Validator>): (k: nat)
    requires |s| > 0
    ensures k < |s|
    ensures forall j :: 0 <= j < |s| ==> s[k].stake <= s[j].stake
    ensures forall j :: 0 <= j < k ==> s[k].stake < s[j].stake
  {
    if |s| == 1 then 0
    else
      var k := SmallestIndex(s[..|s| - 1]);
      if s[|s| - 1].stake < s[k].stake then |s| - 1 else k
  }

  /**
   * Admission of `entry` into a set: an owner already in the set adds to its
   * stake (not asserted by the tests); otherwise the entry takes the next free
   * place, or, when the set is full, replaces the first smallest entry in
   * place if its stake is strictly larger.
   */
  function Admit(s: seq<Validator>, maxValidators: nat, entry: Validator): (r: Result<seq<Validator>, StakingError>)
    requires 0 < maxValidators && |s| <= maxValidators
    ensures r.Failure? ==> r.error == StakeTooSmall
    ensures r.Success? ==> |s| <= |r.value| <= maxValidators
    ensures r.Success? ==> exists j :: 0 <= j < |r.value| && r.value[j].owner == entry.owner
  {
    match IndexOfOwner(s, entry.owner)
    case Some(j) =>
      var raised := s[j := s[j].(stake := s[j].stake + entry.stake)];
      assert raised[j].owner == entry.owner;
      Success(raised)
    case None =>
      if |s| < maxValidators then
        assert (s + [entry])[|s|] == entry;
        Success(s + [entry])
      else
        var k := SmallestIndex(s);
        if s[k].stake < entry.stake then
          assert s[k := entry][k] == entry;
          Success(s[k := entry])
        else Failure(StakeTooSmall)
  }

  /** Admission fails exactly for a newcomer to a full set whose stake beats no entry. */
  lemma AdmitFailsExactly(s: seq<Validator>, maxValidators: nat, entry: Validator)
    requires 0 < maxValidators && |s| <= maxValidators
    ensures Admit(s, maxValidators, entry).Failure? <==>
              && (forall j :: 0 <= j < |s| ==> s[j].owner != entry.owner)
              && |s| == maxValidators
              && (forall j :: 0 <= j < |s| ==> entry.stake <= s[j].stake)
  {
    if IndexOfOwner(s, entry.owner).None? && |s| == maxValidators {
      var k := SmallestIndex(s);
      if entry.stake <= s[k].stake {
        assert forall j :: 0 <= j < |s| ==> entry.stake <= s[j].stake;
      }
    }
  }

  /** Admission keeps a set well formed. */
  lemma AdmitKeepsSetWellFormed(s: seq<Validator>, maxValidators: nat, entry: Validator)
    requires 0 < maxValidators && WellFormedSet(s, maxValidators)
    requires entry.owner != ZERO_ADDRESS && entry.stake > 0
    ensures Admit(s, maxValidators, entry).Success? ==> WellFormedSet(Admit(s, maxValidators, entry).value, maxValidators)
  {
  }

  /** A newcomer to a set with room is appended: one more entry, all others in place. */
  lemma AdmitIntoRoom(s: seq<Validator>, maxValidators: nat, entry: Validator)
    requires 0 < maxValidators && |s| < maxValidators
    requires forall j :: 0 <= j < |s| ==> s[j].owner != entry.owner
    ensures Admit(s, maxValidators, entry) == Success(s + [entry])
  {
  }

  /**
   * A newcomer to a full set whose stake beats some entry ejects the first
   * entry of smallest stake: the set keeps its size, holds the newcomer where
   * the ejected entry was, keeps every other entry in place, and no longer
   * holds the ejected owner.
   */
  lemma AdmitEjectsSmallest(s: seq<Validator>, maxValidators: nat, entry: Validator, i: nat)
    requires 0 < maxValidators && WellFormedSet(s, maxValidators) && |s| == maxValidators
    requires forall j :: 0 <= j < |s| ==> s[j].owner != entry.owner
    requires i < |s| && s[i].stake < entry.stake
    ensures Admit(s, maxValidators, entry).Success?
    ensures var r := Admit(s, maxValidators, entry).value;
            var k := SmallestIndex(s);
            && |r| == maxValidators
            && s[k].stake < entry.stake
            && r[k] == entry
            && (forall j :: 0 <= j < |s| && j != k ==> r[j] == s[j])
            && (forall j :: 0 <= j < |r| ==> r[j].owner != s[k].owner)
  {
  }

  /** An owner already in the set adds the new stake to its entry (not asserted by the tests). */
  lemma AdmitAccumulates(s: seq<Validator>, maxValidators: nat, entry: Validator, i: nat)
    requires 0 < maxValidators && WellFormedSet(s, maxValidators)
    requires i < |s| && s[i].owner == entry.owner
    ensures Admit(s, maxValidators, entry).Success?
    ensures var r := Admit(s, maxValidators, entry).value;
            && |r| == |s|
            && r[i] == Validator(s[i].stake + entry.stake, s[i].validator, s[i].owner)
            && (forall j :: 0 <= j < |s| && j != i ==> r[j] == s[j])
  {
    var j := IndexOfOwner(s, entry.owner).value;
    assert j == i;
  }

  // ---------------------------------------------------------------- ledger

  /** The sum of the amounts a ledger map holds under `keys`. */
  ghost function SumOver<K>(m: map<K, nat>, keys: set<K>): nat
    requires keys <= m.Keys
    decreases keys
  {
    if keys == {} then 0
    else
      var k :| k in keys;
      m[k] + SumOver(m, keys - {k})
  }

  /** The sum of all amounts in a ledger map. */
  ghost function Escrow<K>(m: map<K, nat>): nat
  {
    SumOver(m, m.Keys)
  }

  /** The sum does not depend on which key is taken out first. */
  lemma {:induction false} SumOverRemove<K>(m: map<K, nat>, keys: set<K>, k: K)
    requires keys <= m.Keys && k in keys
    ensures SumOver(m, keys) == m[k] + SumOver(m, keys - {k})
    decreases keys
  {
    var k' :| k' in keys && SumOver(m, keys) == m[k'] + SumOver(m, keys - {k'});
    if k' != k {
      SumOverRemove(m, keys - {k'}, k);
      SumOverRemove(m, keys - {k}, k');
      assert keys - {k'} - {k} == keys - {k} - {k'};
    }
  }

  /** The sum over `keys` only reads the amounts under `keys`. */
  lemma {:induction false} SumOverFrame<K>(m: map<K, nat>, m': map<K, nat>, keys: set<K>)
    requires keys <= m.Keys && keys <= m'.Keys
    requires forall k :: k in keys ==> m[k] == m'[k]
    ensures SumOver(m, keys) == SumOver(m', keys)
    decreases keys
  {
    if keys != {} {
      var k :| k in keys;
      SumOverRemove(m, keys, k);
      SumOverRemove(m', keys, k);
      SumOverFrame(m, m', keys - {k});
    }
  }

  /** Every slot is covered by the sum. */
  lemma EscrowCoversSlot<K>(m: map<K, nat>, k: K)
    requires k in m
    ensures m[k] <= Escrow(m)
  {
    SumOverRemove(m, m.Keys, k);
  }

  /** Setting one slot changes the sum by the difference. */
  lemma EscrowUpdate<K>(m: map<K, nat>, k: K, v: nat)
    ensures Escrow(m[k := v]) + (if k in m then m[k] else 0) == Escrow(m) + v
  {
    var m' := m[k := v];
    SumOverRemove(m', m'.Keys, k);
    assert m'.Keys - {k} == m.Keys - {k};
    SumOverFrame(m', m, m.Keys - {k});
    if k in m {
      SumOverRemove(m, m.Keys, k);
    } else {
      assert m.Keys - {k} == m.Keys;
    }
  }

  /** A deposit slot; one never written reads 0. */
  function SlotOf(deposits: map<(Address, nat), nat>, owner: Address, epoch: nat): nat
  {
    if (owner, epoch) in deposits then deposits[(owner, epoch)] else 0
  }

  // ------------------------------------------------------------ contracts

  /** The token ledger the contract holds its deposits in. */
  class Token {
    var balances: map<Address, nat>

    constructor (initial: map<Address, nat>)
      ensures balances == initial
    {
      balances := initial;
    }

    function BalanceOf(a: Address): nat
      reads this
    {
      if a in balances then balances[a] else 0
    }

    /** Moves `amount` from `from` to `to`, or fails and changes nothing. */
    method Transfer(from: Address, to: Address, amount: nat) returns (ok: bool)
      requires from != to
      modifies this
      ensures ok <==> amount <= old(BalanceOf(from))
      ensures ok ==> balances == old(balances)[from := old(BalanceOf(from)) - amount][to := old(BalanceOf(to)) + amount]
      ensures !ok ==> balances == old(balances)
    {
      ok := amount <= BalanceOf(from);
      if ok {
        balances := balances[from := BalanceOf(from) - amount][to := BalanceOf(to) + amount];
      }
    }
  }

  class HonteStakingContract {
    const config: StakingConfig
    const token: Token
    /** The contract's own account in the token ledger. */
    const address: Address
    /** `deposits(owner, epoch)`; epoch 0 holds what is pending. */
    var deposits: map<(Address, nat), nat>
    /** `validatorSets(epoch, i)`: the populated entries of each epoch's set. */
    var validatorSets: map<nat, seq<Validator>>

    /**
     * Every set is well formed, epoch 0's set stays empty, and the deposits
     * held are covered by the contract's token balance.
     */
    ghost predicate Valid()
      reads this, token
    {
      && address != ZERO_ADDRESS
      && (forall e :: e in validatorSets ==> WellFormedSet(validatorSets[e], config.maxNumberOfValidators))
      && SetOf(0) == []
      && Escrow(deposits) <= token.BalanceOf(address)
    }

    constructor (epochLength: nat, maturityMargin: nat, token: Token, maxNumberOfValidators: nat,
                 address: Address, now: nat)
      requires ValidConfig(Config(now, epochLength, maturityMargin, maxNumberOfValidators))
      requires address != ZERO_ADDRESS
      ensures Valid()
      ensures config == Config(now, epochLength, maturityMargin, maxNumberOfValidators)
      ensures this.token == token && this.address == address
      ensures deposits == map[] && validatorSets == map[]
    {
      this.config := Config(now, epochLength, maturityMargin, maxNumberOfValidators);
      this.token := token;
      this.address := address;
      deposits := map[];
      validatorSets := map[];
    }

    /** The `deposits(owner, epoch)` getter. */
    function Deposits(owner: Address, epoch: nat): nat
      reads this
    {
      SlotOf(deposits, owner, epoch)
    }

    /** The populated entries of `epoch`'s set. */
    function SetOf(epoch: nat): seq<Validator>
      reads this
    {
      if epoch in validatorSets then validatorSets[epoch] else []
    }

    /**
     * The `validatorSets(epoch, i)` getter: the populated entries form a
     * prefix, and the first entry after it has the zero owner.
     */
    function ValidatorSets(epoch: nat, i: nat): (v: Validator)
      requires Valid()
      reads this, token
      ensures v.owner == ZERO_ADDRESS <==> i >= |SetOf(epoch)|
      ensures i < |SetOf(epoch)| ==> v == SetOf(epoch)[i]
    {
      if i < |SetOf(epoch)| then SetOf(epoch)[i] else EMPTY_SLOT
    }

    /**
     * The `get_validators` reading of a set (test_honte_staking.py:57-65):
     * entries from index 0 up to the first with the zero owner.
     */
    method GetValidators(epoch: nat) returns (result: seq<Validator>)
      requires Valid()
      ensures result == SetOf(epoch)
    {
      result := [];
      var i := 0;
      while true
        invariant i <= |SetOf(epoch)| && result == SetOf(epoch)[..i]
        decreases |SetOf(epoch)| - i
      {
        var validator := ValidatorSets(epoch, i);
        if validator.owner == ZERO_ADDRESS {
          break;
        }
        result := result + [validator];
        i := i + 1;
      }
    }

    /**
     * `deposit(amount)`: moves a non-zero `amount` of tokens from the caller
     * into its pending slot; it reverts when the ledger refuses the transfer.
     */
    method Deposit(caller: Address, amount: nat) returns (r: Outcome)
      requires Valid() && caller != address
      modifies this, token
      ensures Valid()
      ensures r == if amount == 0 then Reverted(ZeroStake)
                   else if amount <= old(token.BalanceOf(caller)) then Committed
                   else Reverted(TransferRejected)
      ensures r == Committed ==> deposits == old(deposits)[(caller, 0) := old(Deposits(caller, 0)) + amount]
      ensures r == Committed ==> token.balances == old(token.balances)
                [caller := old(token.BalanceOf(caller)) - amount][address := old(token.BalanceOf(address)) + amount]
      ensures r != Committed ==> deposits == old(deposits) && token.balances == old(token.balances)
      ensures validatorSets == old(validatorSets)
    {
      if amount == 0 {
        return Reverted(ZeroStake);
      }
      var ok := token.Transfer(caller, address, amount);
      if !ok {
        return Reverted(TransferRejected);
      }
      EscrowUpdate(deposits, (caller, 0), Deposits(caller, 0) + amount);
      deposits := deposits[(caller, 0) := Deposits(caller, 0) + amount];
      r := Committed;
    }

    /**
     * `join(validator)`: stakes the caller's whole pending deposit for the
     * next epoch. Inside the join window, with something pending, the entry
     * `(pending, validator, caller)` is admitted into the next epoch's set;
     * the pending slot is emptied and the stake is locked until epoch
     * `UnlockEpoch(next)`. Otherwise nothing changes.
     */
    method Join(caller: Address, validator: Address, now: nat) returns (r: Outcome)
      requires Valid() && caller != ZERO_ADDRESS && config.startBlock <= now
      modifies this
      ensures Valid()
      ensures var target := TargetEpoch(config, now);
              var pending := old(Deposits(caller, 0));
              var admitted := Admit(old(SetOf(target)), config.maxNumberOfValidators, Validator(pending, validator, caller));
              && r == (if !InJoinWindow(config, now) then Reverted(OutsideJoinWindow)
                       else if pending == 0 then Reverted(ZeroStake)
                       else if validator == ZERO_ADDRESS then Reverted(InvalidIdentity)
                       else if admitted.Failure? then Reverted(admitted.error)
                       else Committed)
              && (r == Committed ==>
                    && validatorSets == old(validatorSets)[target := admitted.value]
                    && deposits == old(deposits)[(caller, 0) := 0]
                                    [(caller, UnlockEpoch(target)) := old(Deposits(caller, UnlockEpoch(target))) + pending])
      ensures r != Committed ==> deposits == old(deposits) && validatorSets == old(validatorSets)
    {
      if !InJoinWindow(config, now) {
        return Reverted(OutsideJoinWindow);
      }
      var target := TargetEpoch(config, now);
      var pending := Deposits(caller, 0);
      if pending == 0 {
        return Reverted(ZeroStake);
      }
      if validator == ZERO_ADDRESS {
        return Reverted(InvalidIdentity);
      }
      var admitted := Admit(SetOf(target), config.maxNumberOfValidators, Validator(pending, validator, caller));
      if admitted.Failure? {
        return Reverted(admitted.error);
      }
      AdmitKeepsSetWellFormed(SetOf(target), config.maxNumberOfValidators, Validator(pending, validator, caller));
      validatorSets := validatorSets[target := admitted.value];
      var unlock := UnlockEpoch(target);
      EscrowUpdate(deposits, (caller, 0), 0);
      var emptied := deposits[(caller, 0) := 0];
      EscrowUpdate(emptied, (caller, unlock), Deposits(caller, unlock) + pending);
      deposits := emptied[(caller, unlock) := Deposits(caller, unlock) + pending];
      r := Committed;
    }

    /**
     * `withdraw(epoch)`: pays the caller's slot `epoch` out in full and
     * empties it, once the current epoch has reached `epoch` and the slot
     * holds something. Otherwise nothing changes.
     */
    method Withdraw(caller: Address, epoch: nat, now: nat) returns (r: Outcome)
      requires Valid() && caller != address && config.startBlock <= now
      modifies this, token
      ensures Valid()
      ensures r == (if CurrentEpoch(config, now) < epoch then Reverted(TooEarly)
                    else if old(Deposits(caller, epoch)) == 0 then Reverted(NothingToWithdraw)
                    else Committed)
      ensures r == Committed ==> deposits == old(deposits)[(caller, epoch) := 0]
      ensures r == Committed ==> token.BalanceOf(address) + old(Deposits(caller, epoch)) == old(token.BalanceOf(address))
      ensures r == Committed ==> token.balances == old(token.balances)
                [address := token.BalanceOf(address)]
                [caller := old(token.BalanceOf(caller)) + old(Deposits(caller, epoch))]
      ensures r != Committed ==> deposits == old(deposits) && token.balances == old(token.balances)
      ensures validatorSets == old(validatorSets)
    {
      if CurrentEpoch(config, now) < epoch {
        return Reverted(TooEarly);
      }
      var amount := Deposits(caller, epoch);
      if amount == 0 {
        return Reverted(NothingToWithdraw);
      }
      EscrowCoversSlot(deposits, (caller, epoch));
      var ok := token.Transfer(address, caller, amount);
      assert ok;
      EscrowUpdate(deposits, (caller, epoch), 0);
      deposits := deposits[(caller, epoch) := 0];
      r := Committed;
    }
  }
}
