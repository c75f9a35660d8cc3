/**
 The reward ledger of `SmoothlyPoolV2.sol` as a state machine. A transaction either
 completes with a new pool state or reverts, which leaves the state as it was. What
 the beacon oracle says about the submitted proofs, and whether an ETH transfer is
 accepted by its recipient, arrive with the transaction.
 */
module Ledger {
  import opened Bits
  import opened Wrappers
  import opened BeaconOracle

  const REBALANCE_PERIOD: nat := 21 * 24 * 60 * 60
  const BOND: nat := 100_000_000_000_000_000
  const BPS: nat := 1_000_000_000_000_000_000

  datatype Validator = Validator(effectiveBalance: uint64, withdrawal: Address, bond: nat, start: nat, smooths: nat)

  const UNREGISTERED: Validator := Validator(0, 0, 0, 0, 0)

  datatype Pool = Pool(
    balance: nat,
    lastRebalance: nat,
    totalEB: nat,
    totalBond: nat,
    smooths: nat,
    pendingEB: nat,
    pendingSmooths: nat,
    validators: map<nat, Validator>)
  {
    /** Keys never written read as the zero record. */
    function Entry(i: nat): Validator {
      if i in validators then validators[i] else UNREGISTERED
    }
  }

  datatype PoolError =
    | BondNotSatisfied | AlreadyRegistered | InactiveValidator | Unregistered
    | InvalidBlockTimestamp | EmptyPool | UpdateNotAvailable | CorrectFeeRecipient
    | NotOwner | WithdrawalsDisabled | SendFailed | Panic
    | Oracle(cause: OracleError)

  // The ETH a transaction sends.
  datatype Payment = Nothing | Pay(to: Address, amount: nat)

  function Amount(payment: Payment): nat {
    if payment.Pay? then payment.amount else 0
  }

  datatype Outcome = Done(pool: Pool, payment: Payment) | Reverted(error: PoolError)

  /** A result that 256-bit checked arithmetic accepts. */
  predicate Fits(x: int) {
    0 <= x < TWO_256
  }

  // ----- internal steps; None is an arithmetic panic -----

  predicate Fires(p: Pool, time: nat) {
    time - p.lastRebalance > REBALANCE_PERIOD
  }

  function Rebalance(p: Pool, time: nat): Option<Pool> {
    if time < p.lastRebalance then None
    else if !Fires(p, time) then Some(p)
    else
      var elapsed := time - p.lastRebalance;
      var smooths := p.smooths + p.totalEB * elapsed + p.pendingEB * (elapsed - REBALANCE_PERIOD) + p.pendingSmooths;
      if !Fits(smooths) || !Fits(p.totalEB + p.pendingEB) then None
      else Some(p.(smooths := smooths, totalEB := p.totalEB + p.pendingEB, lastRebalance := time,
                   pendingSmooths := 0, pendingEB := 0))
  }

  function Allocate(p: Pool, effectiveBalance: nat, time: nat): Option<Pool> {
    var elapsed := time - p.lastRebalance;
    if elapsed < 0 || elapsed > REBALANCE_PERIOD then None
    else
      var pendingEB := p.pendingEB + effectiveBalance;
      var pendingSmooths := p.pendingSmooths + effectiveBalance * (REBALANCE_PERIOD - elapsed);
      if !Fits(pendingEB) || !Fits(pendingSmooths) then None
      else Some(p.(pendingEB := pendingEB, pendingSmooths := pendingSmooths))
  }

  /** Units accrued up to the last rebalance. */
  function Shares(p: Pool, v: Validator): int {
    (p.lastRebalance - v.start) * v.effectiveBalance + v.smooths
  }

  function Claimable(p: Pool, v: Validator): int {
    if v.start >= p.lastRebalance then v.smooths else Shares(p, v)
  }

  function Payout(share: nat, smooths: nat, eth: nat): nat
    requires smooths > 0
  {
    ((share * BPS / smooths) * eth) / BPS
  }

  /** The ETH paid for a validator's claim on the units. */
  function ClaimResult(p: Pool, v: Validator, sent: bool): (r: Result<nat, PoolError>)
    requires p.balance >= p.totalBond
    ensures r.Success? ==> 0 <= Claimable(p, v) <= p.smooths && r.value <= p.balance
  {
    var eth := p.balance - p.totalBond;
    var share := Claimable(p, v);
    if p.smooths == 0 then Failure(WithdrawalsDisabled)
    else if !Fits(share) || !Fits(share * BPS) || !Fits((share * BPS / p.smooths) * eth) || p.smooths < share
    then Failure(Panic)
    else
      var paid := Payout(share, p.smooths, eth);
      if !sent || p.balance < paid then Failure(SendFailed) else Success(paid)
  }

  function ExitValidator(p: Pool, i: nat, to: Address, sent: bool): Outcome {
    var v := p.Entry(i);
    var late := REBALANCE_PERIOD - (v.start - p.lastRebalance);
    if v.start >= p.lastRebalance &&
       (p.pendingEB < v.effectiveBalance || late < 0 || p.pendingSmooths < v.effectiveBalance * late
        || p.smooths < v.smooths) then Reverted(Panic)
    else if v.start < p.lastRebalance &&
       (p.totalEB < v.effectiveBalance || !Fits(Shares(p, v)) || p.smooths < Shares(p, v)) then Reverted(Panic)
    else if p.totalBond < v.bond then Reverted(Panic)
    else if !sent || p.balance < v.bond then Reverted(SendFailed)
    else
      var q := if v.start >= p.lastRebalance
        then p.(pendingEB := p.pendingEB - v.effectiveBalance,
                pendingSmooths := p.pendingSmooths - v.effectiveBalance * late,
                smooths := p.smooths - v.smooths)
        else p.(totalEB := p.totalEB - v.effectiveBalance, smooths := p.smooths - Shares(p, v));
      Done(q.(totalBond := p.totalBond - v.bond, balance := p.balance - v.bond,
              validators := p.validators - {i}), Pay(to, v.bond))
  }

  // ----- transactions -----

  // A validator that the oracle let in.
  datatype Entrant = Entrant(effectiveBalance: uint64, withdrawal: Address)

  datatype Op =
    | Register(i: nat, value: nat, claim: Result<Entrant, PoolError>)
    | Withdraw(i: nat, timestamp: nat, verdict: Result<bool, PoolError>, sent: bool)
    | Update(i: nat, active: Result<bool, PoolError>, effectiveBalance: uint64, sent: bool)
    | Slash(i: nat, verdict: Result<bool, PoolError>, correct: bool, sender: Address, sent: bool)
    | Exit(i: nat, sender: Address, sent: bool)
    | RebalanceOnly
    | Receive(value: nat)

  /** Books a new validator's bond and stake; None is an arithmetic panic. */
  function Enroll(p: Pool, i: nat, entrant: Entrant, time: nat): Option<Pool> {
    if !Fits(p.totalBond + BOND) then None
    else
      match Allocate(p, entrant.effectiveBalance, time)
      case None => None
      case Some(q) =>
        var v := Validator(entrant.effectiveBalance, entrant.withdrawal, BOND, time, p.Entry(i).smooths);
        Some(q.(totalBond := p.totalBond + BOND, validators := p.validators[i := v]))
  }

  function RegisterStep(p: Pool, i: nat, value: nat, claim: Result<Entrant, PoolError>, time: nat): Outcome {
    if value != BOND then Reverted(BondNotSatisfied)
    else if p.Entry(i).start > 0 then Reverted(AlreadyRegistered)
    else if claim.Failure? then Reverted(claim.error)
    else
      match Enroll(p.(balance := p.balance + value), i, claim.value, time)
      case None => Reverted(Panic)
      case Some(q) => Done(q, Nothing)
  }

  function WithdrawStep(p: Pool, i: nat, timestamp: nat, verdict: Result<bool, PoolError>, sent: bool): Outcome {
    var v := p.Entry(i);
    var eth := p.balance - p.totalBond;
    if v.start == 0 then Reverted(Unregistered)
    else if timestamp < v.start then Reverted(InvalidBlockTimestamp)
    else if eth < 0 then Reverted(Panic)
    else if eth == 0 then Reverted(EmptyPool)
    else if verdict.Failure? then Reverted(verdict.error)
    else
      match ClaimResult(p, v, sent)
      case Failure(e) => Reverted(e)
      case Success(paid) =>
        Done(p.(smooths := p.smooths - Claimable(p, v), balance := p.balance - paid,
             validators := p.validators[i := v.(start := p.lastRebalance, smooths := 0)]), Pay(v.withdrawal, paid))
  }

  /** Credits what an active validator has earned and makes it pending with its new stake. */
  function Renew(p: Pool, i: nat, effectiveBalance: uint64, time: nat): Option<Pool> {
    var v := p.Entry(i);
    var share := (time - v.start) * v.effectiveBalance;
    if !Fits(share) || p.totalEB < v.effectiveBalance || !Fits(v.smooths + share) then None
    else
      match Allocate(p, effectiveBalance, time)
      case None => None
      case Some(q) =>
        var w := v.(smooths := v.smooths + share, start := time, effectiveBalance := effectiveBalance);
        Some(q.(totalEB := p.totalEB - v.effectiveBalance, validators := p.validators[i := w]))
  }

  function UpdateStep(p: Pool, i: nat, active: Result<bool, PoolError>, effectiveBalance: uint64,
                      sent: bool, time: nat): Outcome
  {
    var v := p.Entry(i);
    if v.start == 0 then Reverted(Unregistered)
    else if active.Failure? then Reverted(active.error)
    else if !active.value then ExitValidator(p, i, v.withdrawal, sent)
    else if v.start >= p.lastRebalance then Reverted(UpdateNotAvailable)
    else
      match Renew(p, i, effectiveBalance, time)
      case None => Reverted(Panic)
      case Some(q) => Done(q, Nothing)
  }

  function SlashStep(p: Pool, i: nat, verdict: Result<bool, PoolError>, correct: bool,
                     sender: Address, sent: bool): Outcome
  {
    if p.Entry(i).start == 0 then Reverted(Unregistered)
    else if verdict.Failure? then Reverted(verdict.error)
    else if correct then Reverted(CorrectFeeRecipient)
    else ExitValidator(p, i, sender, sent)
  }

  function ExitStep(p: Pool, i: nat, sender: Address, sent: bool): Outcome {
    if sender != p.Entry(i).withdrawal then Reverted(NotOwner)
    else ExitValidator(p, i, sender, sent)
  }

  /** What follows the rebalance that every transaction but a plain transfer starts with. */
  function AfterRebalance(p: Pool, op: Op, time: nat): Outcome {
    match op
    case Register(i, value, claim) => RegisterStep(p, i, value, claim, time)
    case Withdraw(i, timestamp, verdict, sent) => WithdrawStep(p, i, timestamp, verdict, sent)
    case Update(i, active, effectiveBalance, sent) => UpdateStep(p, i, active, effectiveBalance, sent, time)
    case Slash(i, verdict, correct, sender, sent) => SlashStep(p, i, verdict, correct, sender, sent)
    case Exit(i, sender, sent) => ExitStep(p, i, sender, sent)
    case RebalanceOnly => Done(p, Nothing)
    case Receive(value) => Done(p, Nothing)
  }

  function Execute(p: Pool, op: Op, time: nat): Outcome {
    if op.Receive? then Done(p.(balance := p.balance + op.value), Nothing)
    else
      match Rebalance(p, time)
      case None => Reverted(Panic)
      case Some(q) => AfterRebalance(q, op, time)
  }

  /** A revert undoes everything the transaction did. */
  function Next(p: Pool, op: Op, time: nat): Pool {
    match Execute(p, op, time)
    case Done(q, _) => q
    case Reverted(_) => p
  }

  /** The pool right after deployment. */
  function Deployed(time: nat): Pool {
    Pool(0, time, 0, 0, 0, 0, 0, map[])
  }

  // A transaction in a block with its timestamp.
  datatype Tx = Tx(op: Op, time: nat)

  function Run(p: Pool, txs: seq<Tx>): Pool {
    if txs == [] then p else Next(Run(p, txs[..|txs| - 1]), txs[|txs| - 1].op, txs[|txs| - 1].time)
  }

  // ----- rebalancing -----

  /** Calls made at the given times, each a transaction of its own. */
  function RebalanceAll(p: Pool, times: seq<nat>): Pool {
    if times == [] then p else Next(RebalanceAll(p, times[..|times| - 1]), RebalanceOnly, times[|times| - 1])
  }

  /** Two rebalances that fire do what the second does alone. */
  lemma RebalanceTwice(p: Pool, t: nat, u: nat)
    requires Fires(p, t) && Rebalance(p, t).Some?
    requires Fires(Rebalance(p, t).value, u) && Rebalance(Rebalance(p, t).value, u).Some?
    ensures Rebalance(p, u) == Rebalance(Rebalance(p, t).value, u)
  {
    var a, b := t - p.lastRebalance, u - t;
    assert p.totalEB * (a + b) == p.totalEB * a + p.totalEB * b;
    assert (p.totalEB + p.pendingEB) * b == p.totalEB * b + p.pendingEB * b;
    assert p.pendingEB * (a + b - REBALANCE_PERIOD) == p.pendingEB * (a - REBALANCE_PERIOD) + p.pendingEB * b;
  }

  /** However often it was called before, a rebalance that fires lands in one state. */
  lemma {:induction false} RebalancePathIndependent(p: Pool, times: seq<nat>, t: nat)
    requires Fires(RebalanceAll(p, times), t) && Rebalance(RebalanceAll(p, times), t).Some?
    ensures RebalanceAll(p, times + [t]) == Next(p, RebalanceOnly, t)
    ensures Fires(p, t) && Rebalance(p, t).Some?
    decreases |times|
  {
    assert (times + [t])[..|times|] == times;
    if times != [] {
      var init, u := times[..|times| - 1], times[|times| - 1];
      var before := RebalanceAll(p, init);
      if Rebalance(before, u).Some? && Fires(before, u) {
        RebalanceTwice(before, u, t);
      }
      assert (init + [t])[..|init|] == init;
      RebalancePathIndependent(p, init, t);
    }
  }

  // ----- bonds -----

  /** Bonds are accounted for one by one and covered by the pool's ETH. */
  ghost predicate Solvent(p: Pool) {
    p.lastRebalance > 0 && p.totalBond == BOND * |p.validators| && p.balance >= p.totalBond &&
    forall i :: i in p.validators ==> p.validators[i].start > 0 && p.validators[i].bond == BOND
  }

  lemma PayoutBounded(share: nat, smooths: nat, eth: nat)
    requires 0 < smooths && share <= smooths
    ensures Payout(share, smooths, eth) <= eth
  {
    var q := share * BPS / smooths;
    QuotientAtMost(share, smooths);
    assert q * eth <= BPS * eth;
  }

  lemma QuotientAtMost(share: nat, smooths: nat)
    requires 0 < smooths && share <= smooths
    ensures share * BPS / smooths <= BPS
  {
    assert share * BPS <= smooths * BPS;
  }

  lemma ExitSolvent(p: Pool, i: nat, to: Address, sent: bool)
    requires Solvent(p) && ExitValidator(p, i, to, sent).Done?
    ensures Solvent(ExitValidator(p, i, to, sent).pool)
  {
    var q := ExitValidator(p, i, to, sent).pool;
    assert q.validators.Keys == p.validators.Keys - {i};
    assert |q.validators| == |q.validators.Keys| && |p.validators| == |p.validators.Keys|;
  }

  lemma RegisterSolvent(p: Pool, i: nat, value: nat, claim: Result<Entrant, PoolError>, time: nat)
    requires Solvent(p) && RegisterStep(p, i, value, claim, time).Done?
    ensures Solvent(RegisterStep(p, i, value, claim, time).pool)
  {
    var q := RegisterStep(p, i, value, claim, time).pool;
    assert q.validators.Keys == p.validators.Keys + {i};
    assert |q.validators| == |q.validators.Keys| && |p.validators| == |p.validators.Keys|;
  }

  lemma WithdrawSolvent(p: Pool, i: nat, timestamp: nat, verdict: Result<bool, PoolError>, sent: bool)
    requires Solvent(p) && WithdrawStep(p, i, timestamp, verdict, sent).Done?
    ensures Solvent(WithdrawStep(p, i, timestamp, verdict, sent).pool)
    ensures Amount(WithdrawStep(p, i, timestamp, verdict, sent).payment) <= p.balance - p.totalBond
  {
    hide Payout, Claimable;
    var q := WithdrawStep(p, i, timestamp, verdict, sent).pool;
    PayoutBounded(Claimable(p, p.Entry(i)), p.smooths, p.balance - p.totalBond);
    assert q.validators.Keys == p.validators.Keys;
    assert |q.validators| == |q.validators.Keys| && |p.validators| == |p.validators.Keys|;
  }

  lemma UpdateSolvent(p: Pool, i: nat, active: Result<bool, PoolError>, effectiveBalance: uint64, sent: bool, time: nat)
    requires Solvent(p) && UpdateStep(p, i, active, effectiveBalance, sent, time).Done?
    ensures Solvent(UpdateStep(p, i, active, effectiveBalance, sent, time).pool)
  {
    hide ExitValidator;
    if active.value {
      var q := UpdateStep(p, i, active, effectiveBalance, sent, time).pool;
      assert q.validators.Keys == p.validators.Keys;
      assert |q.validators| == |q.validators.Keys| && |p.validators| == |p.validators.Keys|;
    } else {
      ExitSolvent(p, i, p.Entry(i).withdrawal, sent);
    }
  }

  /** Every transaction keeps the pool solvent, under no further condition. */
  lemma StepSolvent(p: Pool, op: Op, time: nat)
    requires Solvent(p)
    ensures Solvent(Next(p, op, time))
  {
    hide RegisterStep, WithdrawStep, UpdateStep, ExitValidator;
    if !op.Receive? && Execute(p, op, time).Done? {
      var q := Rebalance(p, time).value;
      assert Solvent(q);
      match op
      case Register(i, value, claim) => RegisterSolvent(q, i, value, claim, time);
      case Withdraw(i, timestamp, verdict, sent) => WithdrawSolvent(q, i, timestamp, verdict, sent);
      case Update(i, active, effectiveBalance, sent) => UpdateSolvent(q, i, active, effectiveBalance, sent, time);
      case Slash(i, verdict, correct, sender, sent) => ExitSolvent(q, i, sender, sent);
      case Exit(i, sender, sent) => ExitSolvent(q, i, sender, sent);
      case _ =>
    }
  }

  lemma {:induction false} RunSolvent(time: nat, txs: seq<Tx>)
    requires time > 0
    ensures Solvent(Run(Deployed(time), txs))
  {
    if txs != [] {
      RunSolvent(time, txs[..|txs| - 1]);
      StepSolvent(Run(Deployed(time), txs[..|txs| - 1]), txs[|txs| - 1].op, txs[|txs| - 1].time);
    }
  }
}
