/**
 * The scenarios of populus/tests/test_honte_staking.py, replayed as verified
 * methods: each deploys a fresh token and contract (epochs of 40 blocks, a
 * maturity margin of 5, at most 4 validators, every account minted one
 * ether), makes the test's transactions, and ensures the test's assertions
 * about the resulting state. Accounts are the addresses 1 to 6;
 * `accounts[i]` of the test is address `i + 1`.
 */
module HonteStakingScenarios {
  import opened HonteStaking

  const LARGE_AMOUNT: nat := 1_000_000_000_000_000_000
  const MEDIUM_AMOUNT: nat := 10000
  const SMALL_AMOUNT: nat := 10
  const FINNEY: nat := 1_000_000_000_000_000
  const EPOCH_LENGTH: nat := 40
  const MATURITY_MARGIN: nat := 5
  const MAX_VALIDATORS: nat := 4
  const STAKING_ADDRESS: Address := 100

  /** The token fixture: accounts 1 to 6 each hold `LARGE_AMOUNT`. */
  function Minted(): map<Address, nat>
  {
    map[1 := LARGE_AMOUNT, 2 := LARGE_AMOUNT, 3 := LARGE_AMOUNT,
        4 := LARGE_AMOUNT, 5 := LARGE_AMOUNT, 6 := LARGE_AMOUNT]
  }

  /** The fixtures: a token and a contract deployed in block `start`. */
  method Deploy(start: nat) returns (token: Token, staking: HonteStakingContract)
    ensures fresh(token) && fresh(staking) && staking.Valid()
    ensures staking.token == token && staking.address == STAKING_ADDRESS
    ensures staking.config == Config(start, EPOCH_LENGTH, MATURITY_MARGIN, MAX_VALIDATORS)
    ensures staking.deposits == map[] && staking.validatorSets == map[]
    ensures token.balances == Minted()
  {
    token := new Token(Minted());
    staking := new HonteStakingContract(EPOCH_LENGTH, MATURITY_MARGIN, token, MAX_VALIDATORS, STAKING_ADDRESS, start);
  }

  /**
   * A run of withdrawals from slots `0` to `count - 1` that are all locked or
   * empty: each reverts, and nothing changes.
   */
  method WithdrawEach(staking: HonteStakingContract, caller: Address, count: nat, now: nat)
    returns (outcomes: seq<Outcome>)
    requires staking.Valid() && caller != staking.address && staking.config.startBlock <= now
    requires forall e :: 0 <= e < count ==> CurrentEpoch(staking.config, now) < e || SlotOf(staking.deposits, caller, e) == 0
    modifies staking, staking.token
    ensures staking.Valid()
    ensures |outcomes| == count
    ensures forall e :: 0 <= e < count ==>
              outcomes[e] == if CurrentEpoch(staking.config, now) < e then Reverted(TooEarly) else Reverted(NothingToWithdraw)
    ensures staking.deposits == old(staking.deposits) && staking.validatorSets == old(staking.validatorSets)
    ensures staking.token.balances == old(staking.token.balances)
  {
    outcomes := [];
    var epoch := 0;
    while epoch < count
      invariant epoch <= count && |outcomes| == epoch
      invariant staking.Valid()
      invariant forall e :: 0 <= e < epoch ==>
                  outcomes[e] == if CurrentEpoch(staking.config, now) < e then Reverted(TooEarly) else Reverted(NothingToWithdraw)
      invariant staking.deposits == old(staking.deposits) && staking.validatorSets == old(staking.validatorSets)
      invariant staking.token.balances == old(staking.token.balances)
      invariant forall e :: epoch <= e < count ==> CurrentEpoch(staking.config, now) < e || SlotOf(staking.deposits, caller, e) == 0
    {
      var r := staking.Withdraw(caller, epoch, now);
      outcomes := outcomes + [r];
      epoch := epoch + 1;
    }
  }

  /** The set that accounts 1 to `n` build by joining in turn, account `a` staking `stakeOf(a)`. */
  function Lineup(n: nat, stakeOf: Address -> nat): seq<Validator>
  {
    if n == 0 then [] else Lineup(n - 1, stakeOf) + [Validator(stakeOf(n), n, n)]
  }

  lemma {:induction false} LineupEntries(n: nat, stakeOf: Address -> nat)
    ensures |Lineup(n, stakeOf)| == n
    ensures forall j :: 0 <= j < n ==> Lineup(n, stakeOf)[j] == Validator(stakeOf(j + 1), j + 1, j + 1)
  {
    if n > 0 {
      LineupEntries(n - 1, stakeOf);
    }
  }

  /** The deposit of every account in the tests that fill a set with large stakes. */
  function LargeStake(a: Address): nat
  {
    LARGE_AMOUNT
  }

  /** The deposit of `accounts[a - 1]` in test_ejects_smallest_validators. */
  function EjectStake(a: Address): nat
  {
    if a == 3 then SMALL_AMOUNT else a * MEDIUM_AMOUNT
  }

  /**
   * The `do_deposit` then `join` step of the filling loops: account `n + 1`
   * deposits `stakeOf(n + 1)` and joins the next epoch's set, which holds
   * accounts 1 to `n` and has room; it is appended, and no other account's
   * balance or pending deposit changes.
   */
  method DepositAndJoin(staking: HonteStakingContract, n: nat, stakeOf: Address -> nat, now: nat)
    returns (deposited: Outcome, joined: Outcome)
    requires n < MAX_VALIDATORS && staking.Valid() && staking.address == STAKING_ADDRESS
    requires staking.config.maxNumberOfValidators == MAX_VALIDATORS
    requires staking.config.startBlock <= now && CurrentEpoch(staking.config, now) == 0 && InJoinWindow(staking.config, now)
    requires staking.SetOf(1) == Lineup(n, stakeOf)
    requires 0 < stakeOf(n + 1) <= staking.token.BalanceOf(n + 1) && staking.Deposits(n + 1, 0) == 0
    modifies staking, staking.token
    ensures deposited == Committed && joined == Committed
    ensures staking.Valid() && staking.SetOf(1) == Lineup(n + 1, stakeOf)
    ensures forall a :: a != n + 1 && a != STAKING_ADDRESS ==>
              staking.token.BalanceOf(a) == old(staking.token.BalanceOf(a)) && staking.Deposits(a, 0) == old(staking.Deposits(a, 0))
  {
    var validator := n + 1;
    deposited := staking.Deposit(validator, stakeOf(validator));
    assert staking.Deposits(validator, 0) == stakeOf(validator);
    assert staking.SetOf(1) == Lineup(n, stakeOf);
    ghost var pending := staking.deposits;
    var entry := Validator(stakeOf(validator), validator, validator);
    LineupEntries(n, stakeOf);
    AdmitIntoRoom(staking.SetOf(1), MAX_VALIDATORS, entry);
    assert TargetEpoch(staking.config, now) == 1;
    joined := staking.Join(validator, validator, now);
    assert staking.SetOf(1) == Lineup(n, stakeOf) + [entry];
    assert forall a :: a != validator ==> SlotOf(staking.deposits, a, 0) == SlotOf(pending, a, 0);
  }

  /**
   * The filling loop of the tests that need a full set: accounts 1 to
   * `maxNumberOfValidators` deposit and join in turn, account `a` staking
   * `stakeOf(a)`; every join commits and the set fills in that order.
   */
  method FillSet(staking: HonteStakingContract, stakeOf: Address -> nat, now: nat) returns (joins: seq<Outcome>)
    requires staking.Valid() && staking.address == STAKING_ADDRESS
    requires staking.config.maxNumberOfValidators == MAX_VALIDATORS
    requires staking.config.startBlock <= now && CurrentEpoch(staking.config, now) == 0 && InJoinWindow(staking.config, now)
    requires staking.SetOf(1) == []
    requires forall a :: 1 <= a <= 6 ==> 0 < stakeOf(a) <= staking.token.BalanceOf(a) && staking.Deposits(a, 0) == 0
    modifies staking, staking.token
    ensures |joins| == MAX_VALIDATORS && forall o :: o in joins ==> o == Committed
    ensures staking.Valid() && staking.SetOf(1) == Lineup(MAX_VALIDATORS, stakeOf)
    ensures forall a :: MAX_VALIDATORS < a <= 6 ==>
              staking.token.BalanceOf(a) == old(staking.token.BalanceOf(a)) && staking.Deposits(a, 0) == 0
  {
    joins := [];
    var i := 0;
    while i < MAX_VALIDATORS
      invariant i <= MAX_VALIDATORS && |joins| == i
      invariant forall o :: o in joins ==> o == Committed
      invariant staking.Valid() && staking.SetOf(1) == Lineup(i, stakeOf)
      invariant forall a :: i < a <= 6 ==>
                  0 < stakeOf(a) <= staking.token.BalanceOf(a) == old(staking.token.BalanceOf(a)) && staking.Deposits(a, 0) == 0
    {
      var deposited, r := DepositAndJoin(staking, i, stakeOf, now);
      joins := joins + [r];
      i := i + 1;
    }
  }

  /**
   * The last transactions of test_ejects_smallest_validators: account 5
   * deposits five times `MEDIUM_AMOUNT` and joins the full set, ejecting
   * account 3, whose stake is the smallest.
   */
  method JoinAndEject(staking: HonteStakingContract, now: nat) returns (joined: Outcome)
    requires staking.Valid() && staking.address == STAKING_ADDRESS
    requires staking.config.maxNumberOfValidators == MAX_VALIDATORS
    requires staking.config.startBlock <= now && CurrentEpoch(staking.config, now) == 0 && InJoinWindow(staking.config, now)
    requires staking.SetOf(1) == Lineup(MAX_VALIDATORS, EjectStake)
    requires staking.token.BalanceOf(5) == LARGE_AMOUNT && staking.Deposits(5, 0) == 0
    modifies staking, staking.token
    ensures staking.Valid() && joined == Committed
    ensures staking.SetOf(1) == Lineup(MAX_VALIDATORS, EjectStake)[2 := Validator(5 * MEDIUM_AMOUNT, 5, 5)]
  {
    var deposited := staking.Deposit(5, 5 * MEDIUM_AMOUNT);
    var full := staking.SetOf(1);
    var newcomer := Validator(5 * MEDIUM_AMOUNT, 5, 5);
    LineupEntries(MAX_VALIDATORS, EjectStake);
    AdmitEjectsSmallest(full, MAX_VALIDATORS, newcomer, 2);
    assert SmallestIndex(full) == 2 by {
      var k := SmallestIndex(full);
      assert full[k].stake <= full[2].stake;
    }
    joined := staking.Join(5, 5, now);
  }

  /**
   * The last transactions of test_cant_enter_if_too_small_to_eject: account 5
   * deposits one wei and is refused by a full set of one-ether stakes.
   */
  method JoinTooSmall(staking: HonteStakingContract, now: nat) returns (joined: Outcome)
    requires staking.Valid() && staking.address == STAKING_ADDRESS
    requires staking.config.maxNumberOfValidators == MAX_VALIDATORS
    requires staking.config.startBlock <= now && CurrentEpoch(staking.config, now) == 0 && InJoinWindow(staking.config, now)
    requires staking.SetOf(1) == Lineup(MAX_VALIDATORS, LargeStake)
    requires staking.token.BalanceOf(5) == LARGE_AMOUNT && staking.Deposits(5, 0) == 0
    modifies staking, staking.token
    ensures staking.Valid() && joined == Reverted(StakeTooSmall)
  {
    var deposited := staking.Deposit(5, 1);
    LineupEntries(MAX_VALIDATORS, LargeStake);
    AdmitFailsExactly(staking.SetOf(1), MAX_VALIDATORS, Validator(1, 5, 5));
    joined := staking.Join(5, 5, now);
  }

  /**
   * The first transactions of test_deposit_join_withdraw_single_validator:
   * account 2 deposits one ether in epoch 0 and joins, which locks the stake
   * in slot 3.
   */
  method DeployDepositJoin(start: nat)
    returns (token: Token, staking: HonteStakingContract, deposited: Outcome, joined: Outcome)
    ensures fresh(token) && fresh(staking) && staking.Valid()
    ensures staking.token == token && staking.address == STAKING_ADDRESS
    ensures staking.config == Config(start, EPOCH_LENGTH, MATURITY_MARGIN, MAX_VALIDATORS)
    ensures deposited == Committed && joined == Committed
    ensures forall e :: SlotOf(staking.deposits, 2, e) == if e == 3 then LARGE_AMOUNT else 0
    ensures token.BalanceOf(2) == 0
  {
    token, staking := Deploy(start);
    deposited := staking.Deposit(2, LARGE_AMOUNT);
    joined := staking.Join(2, 2, start);
  }

  /** test_empty_validators (lines 90-91): epoch 0 has no validators. */
  method EmptyValidators(start: nat) returns (validators: seq<Validator>)
    ensures validators == []
  {
    var token, staking := Deploy(start);
    validators := staking.GetValidators(0);
  }

  /**
   * test_deposit_and_immediate_withdraw (lines 93-95, with the checks of the
   * `do_deposit` and `do_withdraw` fixtures at lines 76 and 86-87): the deposit
   * shows as pending, and can be taken back at once, emptying the slot and
   * restoring the balance.
   */
  method DepositAndImmediateWithdraw(start: nat)
    returns (deposited: Outcome, pending: nat, withdrawn: Outcome, slot: nat, balance: nat)
    ensures deposited == Committed && pending == LARGE_AMOUNT
    ensures withdrawn == Committed && slot == 0 && balance == LARGE_AMOUNT
  {
    var token, staking := Deploy(start);
    deposited := staking.Deposit(2, LARGE_AMOUNT);
    pending := staking.Deposits(2, 0);
    withdrawn := staking.Withdraw(2, 0, start);
    slot := staking.Deposits(2, 0);
    balance := token.BalanceOf(2);
  }

  /**
   * test_cant_withdraw_zero (lines 97-107): another account cannot withdraw a
   * deposit it did not make, and a withdrawn slot cannot be withdrawn again.
   * The withdrawal in between empties the slot and restores the balance, as
   * the `do_withdraw` fixture checks (lines 86-87).
   */
  method CantWithdrawZero(start: nat)
    returns (byOther: Outcome, withdrawn: Outcome, slot: nat, balance: nat, again: Outcome)
    ensures byOther == Reverted(NothingToWithdraw)
    ensures withdrawn == Committed && slot == 0 && balance == LARGE_AMOUNT
    ensures again == Reverted(NothingToWithdraw)
  {
    var token, staking := Deploy(start);
    var deposited := staking.Deposit(2, LARGE_AMOUNT);
    byOther := staking.Withdraw(3, 0, start);
    withdrawn := staking.Withdraw(2, 0, start);
    slot := staking.Deposits(2, 0);
    balance := token.BalanceOf(2);
    again := staking.Withdraw(2, 0, start);
  }

  /**
   * test_deposit_join_withdraw_single_validator (lines 109-141): after a join
   * in epoch 0 every slot up to `current + 1 + unbondingPeriod` refuses to pay
   * in epochs 0, 1 and 2, and in epoch 3 slot 3 pays the whole stake back and
   * reads 0 afterwards (the `do_withdraw` checks, lines 86-87).
   */
  method DepositJoinWithdrawSingleValidator(start: nat)
    returns (joined: Outcome, whileJoining: seq<Outcome>, whileValidating: seq<Outcome>,
             whileUnbonding: seq<Outcome>, withdrawn: Outcome, slot: nat, balance: nat)
    ensures joined == Committed
    ensures |whileJoining| == 2 && forall o :: o in whileJoining ==> o.Reverted?
    ensures |whileValidating| == 3 && forall o :: o in whileValidating ==> o.Reverted?
    ensures |whileUnbonding| == 4 && forall o :: o in whileUnbonding ==> o.Reverted?
    ensures withdrawn == Committed && slot == 0 && balance == LARGE_AMOUNT
  {
    var token, staking, deposited;
    token, staking, deposited, joined := DeployDepositJoin(start);

    var now := start;
    whileJoining := WithdrawEach(staking, 2, CurrentEpoch(staking.config, now) + 1 + UNBONDING_PERIOD, now);
    now := start + EPOCH_LENGTH;
    whileValidating := WithdrawEach(staking, 2, CurrentEpoch(staking.config, now) + 1 + UNBONDING_PERIOD, now);
    now := start + 2 * EPOCH_LENGTH;
    whileUnbonding := WithdrawEach(staking, 2, CurrentEpoch(staking.config, now) + 1 + UNBONDING_PERIOD, now);
    now := start + 3 * EPOCH_LENGTH;
    withdrawn := staking.Withdraw(2, CurrentEpoch(staking.config, now), now);
    slot := staking.Deposits(2, 3);
    balance := token.BalanceOf(2);
  }

  /**
   * test_cant_join_outside_join_window (lines 143-156): a join in any of the
   * last `maturityMargin` blocks of epoch 0 reverts, and one block into
   * epoch 1 it commits.
   */
  method CantJoinOutsideJoinWindow(start: nat) returns (refused: seq<Outcome>, joined: Outcome)
    ensures |refused| == MATURITY_MARGIN && forall o :: o in refused ==> o == Reverted(OutsideJoinWindow)
    ensures joined == Committed
  {
    var token, staking := Deploy(start);
    var deposited := staking.Deposit(2, LARGE_AMOUNT);
    refused := [];
    var marginBlock := 0;
    while marginBlock < MATURITY_MARGIN
      invariant marginBlock <= MATURITY_MARGIN && |refused| == marginBlock
      invariant forall o :: o in refused ==> o == Reverted(OutsideJoinWindow)
      invariant staking.Valid() && staking.Deposits(2, 0) == LARGE_AMOUNT && staking.validatorSets == map[]
    {
      JoinWindowOfFirstEpochs(staking.config, marginBlock);
      var r := staking.Join(2, 2, start + EPOCH_LENGTH - MATURITY_MARGIN + marginBlock);
      refused := refused + [r];
      marginBlock := marginBlock + 1;
    }
    JoinWindowOfFirstEpochs(staking.config, 0);
    joined := staking.Join(2, 2, start + EPOCH_LENGTH + 1);
  }

  /**
   * test_deposit_join_many_validators (lines 158-163): `maxNumberOfValidators`
   * accounts can all deposit and join the same set.
   */
  method DepositJoinManyValidators(start: nat) returns (joins: seq<Outcome>, validators: seq<Validator>)
    ensures |joins| == MAX_VALIDATORS && forall o :: o in joins ==> o == Committed
    ensures validators == Lineup(MAX_VALIDATORS, LargeStake)
  {
    var token, staking := Deploy(start);
    joins := FillSet(staking, LargeStake, start);
    validators := staking.GetValidators(1);
  }

  /**
   * test_ejects_smallest_validators (lines 165-190): a full set of four, in
   * which `accounts[2]` staked least, is joined by a fifth account with a
   * larger stake; the set stays at four, `accounts[2]` is gone and the
   * newcomer is in.
   */
  method EjectsSmallestValidators(start: nat) returns (joined: Outcome, validators: seq<Validator>)
    ensures joined == Committed
    ensures |validators| == MAX_VALIDATORS
    ensures forall v :: v in validators ==> v.validator != 3
    ensures Validator(5 * MEDIUM_AMOUNT, 5, 5) in validators
  {
    var token, staking := Deploy(start);
    var joins := FillSet(staking, EjectStake, start);
    joined := JoinAndEject(staking, start);
    validators := staking.GetValidators(1);
    LineupEntries(MAX_VALIDATORS, EjectStake);
    assert validators[2] == Validator(5 * MEDIUM_AMOUNT, 5, 5);
  }

  /**
   * test_cant_enter_if_too_small_to_eject (lines 192-205): a full set of large
   * stakes turns away a one-wei stake.
   */
  method CantEnterIfTooSmallToEject(start: nat) returns (joined: Outcome)
    ensures joined == Reverted(StakeTooSmall)
  {
    var token, staking := Deploy(start);
    var joins := FillSet(staking, LargeStake, start);
    joined := JoinTooSmall(staking, start);
  }

  /**
   * test_deposits_accumulate_for_join (lines 207-217): two deposits join as
   * one entry holding their sum.
   */
  method DepositsAccumulateForJoin(start: nat) returns (joined: Outcome, validators: seq<Validator>)
    ensures joined == Committed
    ensures |validators| == 1 && validators[0].stake == 2 * FINNEY && validators[0].owner == 2
  {
    var token, staking := Deploy(start);
    var first := staking.Deposit(2, FINNEY);
    var second := staking.Deposit(2, FINNEY);
    joined := staking.Join(2, 2, start);
    validators := staking.GetValidators(1);
  }

  /**
   * test_deposits_accumulate_for_withdraw (lines 219-225): two deposits are
   * paid back together by one withdrawal: the slot holds both (the
   * `do_deposit` check, line 76) and reads 0 afterwards (line 86).
   */
  method DepositsAccumulateForWithdraw(start: nat)
    returns (pending: nat, withdrawn: Outcome, slot: nat, before: nat, after: nat)
    ensures pending == 2 * FINNEY
    ensures withdrawn == Committed && slot == 0
    ensures after == before + 2 * FINNEY
  {
    var token, staking := Deploy(start);
    var first := staking.Deposit(2, FINNEY);
    var second := staking.Deposit(2, FINNEY);
    pending := staking.Deposits(2, 0);
    before := token.BalanceOf(2);
    withdrawn := staking.Withdraw(2, 0, start);
    slot := staking.Deposits(2, 0);
    after := token.BalanceOf(2);
  }
}
