/**
 Runs from deployment on which the accumulators part from the per-validator sums, one
 for each condition under which the books are kept. They work from any time after the
 beacon chain's genesis on, with stakes and claims the oracle can confirm (`SomeoneActive`, `SomeoneProposed`).
 */
module Counterexamples {
  import opened Wrappers
  import opened BeaconOracle
  import opened Ledger
  import opened Accounting
  import opened Distribution
  import opened SmoothlyPool
  import opened Bits
  import opened MerkleTree
  import opened BitTricks
  import opened Proposals

  const PERIOD := REBALANCE_PERIOD

  // 32 ETH in gwei.
  const STAKE: nat := 32_000_000_000

  function Joins(i: nat, time: nat): Tx {
    Tx(Register(i, BOND, Success(Entrant(STAKE, 1))), time)
  }

  function Claims(i: nat, time: nat): Tx {
    Tx(Withdraw(i, time, Success(true), true), time)
  }

  function Updates(i: nat, time: nat): Tx {
    Tx(Update(i, Success(true), 31_000_000_000, true), time)
  }

  lemma RunLast(p: Pool, txs: seq<Tx>, tx: Tx)
    ensures Run(p, txs + [tx]) == Next(Run(p, txs), tx.op, tx.time)
  {
    assert (txs + [tx])[..|txs|] == txs;
  }

  /** At time t one validator joins, and after the period the pool rebalances. */
  function FirstPeriod(t: nat): seq<Tx> {
    [Joins(7, t), Tx(RebalanceOnly, t + PERIOD + 1)]
  }

  lemma AfterFirstPeriod(t: nat)
    requires t >= BEACON_GENESIS
    ensures Run(Deployed(t), FirstPeriod(t))
         == Pool(BOND, t + PERIOD + 1, STAKE, BOND, STAKE * (PERIOD + 1), 0, 0,
                 map[7 := Validator(STAKE, 1, BOND, t, 0)])
  {
    hide Run, Payout;
    RunNothing(Deployed(t));
    RunLast(Deployed(t), [], Joins(7, t));
    assert [] + [Joins(7, t)] == [Joins(7, t)];
    var p := Pool(BOND, t, 0, BOND, 0, STAKE, STAKE * PERIOD, map[7 := Validator(STAKE, 1, BOND, t, 0)]);
    assert Next(Deployed(t), Joins(7, t).op, t) == p;
    RunLast(Deployed(t), [Joins(7, t)], Tx(RebalanceOnly, t + PERIOD + 1));
    assert [Joins(7, t)] + [Tx(RebalanceOnly, t + PERIOD + 1)] == FirstPeriod(t);
    assert Next(p, RebalanceOnly, t + PERIOD + 1).smooths == STAKE * (PERIOD + 1);
  }

  /** An update ten seconds after the rebalance credits a validator with more units than there are. */
  lemma LateUpdate(t: nat)
    requires t >= BEACON_GENESIS
    ensures var p := Run(Deployed(t), FirstPeriod(t) + [Updates(7, t + PERIOD + 11)]);
      7 in p.validators && p.validators[7].smooths == p.smooths + 10 * STAKE
  {
    hide Run;
    AfterFirstPeriod(t);
    RunLast(Deployed(t), FirstPeriod(t), Updates(7, t + PERIOD + 11));
  }

  /** A withdrawal by a fresh registrant: its pending units no longer cover what an exit takes out. */
  function FreshClaim(t: nat): seq<Tx> {
    FirstPeriod(t) + [Joins(8, t + PERIOD + 11)] + [Tx(Receive(BOND), t + PERIOD + 11)] + [Claims(8, t + PERIOD + 12)]
  }

  lemma EarlyWithdrawal(t: nat)
    requires t >= BEACON_GENESIS
    ensures var p := Run(Deployed(t), FreshClaim(t));
      8 in p.validators && p.pendingSmooths + 10 * STAKE == LateUnits(p.validators[8], p.lastRebalance)
      && Execute(p, Exit(8, 1, true), t + PERIOD + 13) == Reverted(Panic)
  {
    hide Run;
    AfterFirstPeriod(t);
    var last, joined := t + PERIOD + 1, t + PERIOD + 11;
    var p0 := Run(Deployed(t), FirstPeriod(t));
    var p1 := Pool(2 * BOND, last, STAKE, 2 * BOND, STAKE * (PERIOD + 1), STAKE, STAKE * (PERIOD - 10),
                   map[7 := Validator(STAKE, 1, BOND, t, 0), 8 := Validator(STAKE, 1, BOND, joined, 0)]);
    var p2 := p1.(balance := 3 * BOND);
    var p3 := p2.(validators := p2.validators[8 := Validator(STAKE, 1, BOND, last, 0)]);
    assert Next(p0, Joins(8, joined).op, joined) == p1;
    assert Next(p1, Receive(BOND), joined) == p2;
    NothingPaid(p2);
    assert Next(p2, Claims(8, joined + 1).op, joined + 1) == p3;
    var txs := FirstPeriod(t);
    RunLast(Deployed(t), txs, Joins(8, joined));
    RunLast(Deployed(t), txs + [Joins(8, joined)], Tx(Receive(BOND), joined));
    RunLast(Deployed(t), txs + [Joins(8, joined)] + [Tx(Receive(BOND), joined)], Claims(8, joined + 1));
  }

  lemma NothingPaid(p: Pool)
    requires p.smooths > 0
    ensures Payout(0, p.smooths, Ledger.BOND) == 0
  {
    assert 0 * BPS / p.smooths == 0;
  }

  /** A withdrawal and an exit between two rebalances, while another validator is pending. */
  function ClaimAndLeave(t: nat): seq<Tx> {
    FirstPeriod(t) + [Tx(Receive(BOND), t + PERIOD + 1)] + [Claims(7, t + PERIOD + 1)] + [Joins(8, t + PERIOD + 1)]
    + [Tx(Exit(7, 1, true), t + PERIOD + 2)]
  }

  /** The exit takes the other validator's stake out of the pending sum, which blocks that one's exit. */
  lemma EarlyExit(t: nat)
    requires t >= BEACON_GENESIS
    ensures var p := Run(Deployed(t), ClaimAndLeave(t));
      p.validators.Keys == {8} && p.validators[8].start == p.lastRebalance && p.pendingEB == 0 && p.totalEB == STAKE
      && Execute(p, Exit(8, 1, true), t + PERIOD + 3) == Reverted(Panic)
  {
    hide Run, Payout;
    AfterFirstPeriod(t);
    var last := t + PERIOD + 1;
    var p0 := Run(Deployed(t), FirstPeriod(t));
    var p1 := p0.(balance := 2 * BOND);
    var p2 := Pool(BOND, last, STAKE, BOND, 0, 0, 0, map[7 := Validator(STAKE, 1, BOND, last, 0)]);
    var p3 := Pool(2 * BOND, last, STAKE, 2 * BOND, 0, STAKE, STAKE * PERIOD,
                   map[7 := Validator(STAKE, 1, BOND, last, 0), 8 := Validator(STAKE, 1, BOND, last, 0)]);
    assert Next(p0, Receive(BOND), last) == p1;
    PayoutAll(p1.smooths, BOND);
    assert Claimable(p1, p1.Entry(7)) == p1.smooths;
    assert p1.smooths * BPS / p1.smooths == BPS by { Arithmetic.DivUnique(p1.smooths * BPS, p1.smooths, BPS, 0); }
    assert Next(p1, Claims(7, last).op, last) == p2;
    assert Next(p2, Joins(8, last).op, last) == p3;
    var txs := FirstPeriod(t);
    RunLast(Deployed(t), txs, Tx(Receive(BOND), last));
    RunLast(Deployed(t), txs + [Tx(Receive(BOND), last)], Claims(7, last));
    RunLast(Deployed(t), txs + [Tx(Receive(BOND), last)] + [Claims(7, last)], Joins(8, last));
    RunLast(Deployed(t), txs + [Tx(Receive(BOND), last)] + [Claims(7, last)] + [Joins(8, last)],
            Tx(Exit(7, 1, true), last + 1));
  }

  // ----- the oracle's part of these runs -----

  const FOREVER: bv64 := 0xffff_ffff_ffff_ffff

  // Type 0x01, address 1.
  function ExecutionCredentials(): Word {
    A.Word.Word(Credentials(1 << 88, 1))
  }

  function ActiveRecord(balance: bv64): BeaconChainValidator {
    BeaconChainValidator(A.ZERO, ExecutionCredentials(), balance, false, 0, 0, FOREVER, FOREVER)
  }

  lemma AddressOne()
    ensures WithdrawalToAddress(ExecutionCredentials()) == Success(1)
  {
    hide Credentials, WithdrawalToAddress;
    CredentialsAddress(ExecutionCredentials(), 1 << 88, 1);
  }

  lemma ActiveNow(balance: bv64, time: nat)
    requires BEACON_GENESIS <= time < TWO_64
    ensures IsActiveValidator(ActiveRecord(balance), time) == Some(true)
  {
    hide ExecutionCredentials;
  }

  /** An active validator's record is confirmed by a block root and a proof of it, for any stake. */
  lemma SomeoneActive(H: HashFn, i: nat, balance: bv64, time: nat) returns (proof: seq<Word>, root: Word)
    requires ZERO_VALIDATOR_INDEX + i < TWO_64 && BEACON_GENESIS <= time < TWO_64
    ensures RegisterClaim(H, proof, ActiveRecord(balance), i, Some(root), time)
         == Success(Entrant(Stake(ActiveRecord(balance)), 1))
    ensures UpdateCheck(H, proof, ActiveRecord(balance), i, Some(root), time) == Success(true)
    ensures Stake(ActiveRecord(balance)) == balance as nat
  {
    hide Fold, ValidatorRoot, Depth, WithdrawalToAddress, IsActiveValidator, ExecutionCredentials;
    var v, g := ActiveRecord(balance), ZERO_VALIDATOR_INDEX + i;
    AddressOne();
    ActiveNow(balance, time);
    proof := seq(Depth(g), n => A.ZERO);
    root := Fold(H, proof, ValidatorRoot(H, v), g);
  }

  /** A block whose root and labels confirm the fee recipient claims of these runs, for any proposer. */
  lemma SomeoneProposed(H: HashFn, validatorIndex: bv256, self: Address) returns (tree: Labelling, proof: seq<Word>)
    ensures ConsistentAbove(H, tree, PROPOSER) && ConsistentAbove(H, tree, FEE_RECIPIENT)
    ensures proof == Labels(tree, Multiproof.HelperIndices([PROPOSER, FEE_RECIPIENT]))
    ensures Lift(ClaimVerdict(H, None, [PROPOSER, FEE_RECIPIENT], proof, validatorIndex, self, Some(tree(1))))
         == Success(true)
  {
    hide ClaimVerdict, AcceptsClaim, ConsistentAbove, Multiproof.HelperIndices;
    tree := BlockOf(H, validatorIndex, self);
    proof := Labels(tree, Multiproof.HelperIndices([PROPOSER, FEE_RECIPIENT]));
    ClaimComplete(H, tree, PROPOSER, FEE_RECIPIENT, validatorIndex, self);
    LeftoverDecides(H, None, PROPOSER, FEE_RECIPIENT, proof, validatorIndex, self, tree(1));
  }
}
