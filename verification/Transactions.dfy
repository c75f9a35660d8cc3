/**
 What each transaction does to the pool, stated apart from how the ledger computes it:
 who may remove an entry and who is paid for it, what becomes of every entry, where the
 ETH goes, and which transactions complete. Durations and amounts are in seconds and wei.
 */
module Transactions {
  import opened Bits
  import opened Arithmetic
  import opened Wrappers
  import opened BeaconOracle
  import opened Ledger
  import opened Accounting
  import opened Runs
  import opened Safety

  // ----- the rebalance that comes first -----

  /** More than 21 days have passed since the last rebalance. */
  predicate Due(p: Pool, time: nat) {
    time > p.lastRebalance + 1_814_400
  }

  /** Every transaction but a plain transfer first rebalances when one is due, and only then. */
  lemma RebalancedWhenDue(p: Pool, op: Op, time: nat)
    requires Execute(p, op, time).Done?
    ensures Execute(p, op, time).pool.lastRebalance == if !op.Receive? && Due(p, time) then time else p.lastRebalance
    ensures !op.Receive? ==> p.lastRebalance <= time
  {
    hide ClaimResult, Claimable;
  }

  lemma RebalanceEffect(p: Pool, time: nat)
    requires Rebalance(p, time).Some?
    ensures var q := Rebalance(p, time).value;
      && q.validators == p.validators && q.balance == p.balance && q.totalBond == p.totalBond
      && q.totalEB + q.pendingEB == p.totalEB + p.pendingEB
      && q.lastRebalance == (if Due(p, time) then time else p.lastRebalance) <= time <= q.lastRebalance + 1_814_400
      && q.pendingEB == if Due(p, time) then 0 else p.pendingEB
  {
  }

  /** Units a validator can claim: since it is active, its stake for every second up to the last rebalance. */
  function UnitsOf(v: Validator, last: nat): int {
    if v.start < last then v.smooths + v.effectiveBalance * (last - v.start) else v.smooths
  }

  /** A rebalance credits each validator with its stake for every second since it last counted. */
  lemma RebalanceAccrues(p: Pool, v: Validator, time: nat)
    requires Rebalance(p, time).Some? && Due(p, time) && v.start < time
    ensures var q := Rebalance(p, time).value;
      Claimable(q, v) == Claimable(p, v)
        + v.effectiveBalance * (time - (if v.start < p.lastRebalance then p.lastRebalance else v.start))
    ensures Claimable(p, v) == UnitsOf(v, p.lastRebalance)
  {
    assert (time - v.start) * v.effectiveBalance
        == (p.lastRebalance - v.start) * v.effectiveBalance + v.effectiveBalance * (time - p.lastRebalance);
  }

  // ----- entries -----

  /** The ways out of the pool: a proven exit, a proven other fee recipient, or the owner's wish. */
  predicate Removes(op: Op, i: nat, v: Validator) {
    (op.Update? && op.i == i && op.active == Success(false)) ||
    (op.Slash? && op.i == i && op.verdict.Success? && !op.correct) ||
    (op.Exit? && op.i == i && op.sender == v.withdrawal)
  }

  /** The entry of a validator that joins, with a bond of 0.1 ETH. */
  function Joined(entrant: Entrant, time: nat): Validator {
    Validator(entrant.effectiveBalance, entrant.withdrawal, 100_000_000_000_000_000, time, 0)
  }

  /** The entry after an update: the new stake from now on, and units for the old stake up to now. */
  function Updated(v: Validator, effectiveBalance: uint64, time: nat): Validator
    requires v.start <= time
  {
    Validator(effectiveBalance, v.withdrawal, v.bond, time, v.smooths + v.effectiveBalance * (time - v.start))
  }

  /** Who is in the pool after a completed transaction, and with what. */
  ghost predicate EntriesAfter(p: Pool, op: Op, time: nat, q: Pool) {
    match op
    case Register(i, _, claim) =>
      i !in p.validators && claim.Success? && q.validators == p.validators[i := Joined(claim.value, time)]
    case Withdraw(i, _, _, _) =>
      i in p.validators &&
      q.validators == p.validators[i := p.validators[i].(start := q.lastRebalance, smooths := 0)]
    case RebalanceOnly => q.validators == p.validators
    case Receive(_) => q.validators == p.validators
    case Exit(i, sender, _) =>
      q.validators == p.validators - {i} && (i in p.validators ==> sender == p.validators[i].withdrawal)
    case Slash(i, verdict, correct, _, _) =>
      i in p.validators && verdict.Success? && !correct && q.validators == p.validators - {i}
    case Update(i, active, effectiveBalance, _) =>
      i in p.validators && active.Success? &&
      if !active.value then q.validators == p.validators - {i}
      else p.validators[i].start < q.lastRebalance <= time
           && q.validators == p.validators[i := Updated(p.validators[i], effectiveBalance, time)]
  }

  lemma EntriesLaw(p: Pool, op: Op, time: nat)
    requires Solvent(p) && Execute(p, op, time).Done?
    ensures EntriesAfter(p, op, time, Execute(p, op, time).pool)
  {
    hide ClaimResult, Claimable;
    if !op.Receive? {
      RebalanceEffect(p, time);
      var q := Rebalance(p, time).value;
      hide Rebalance;
      if op.Update? && op.active.value {
        var v := p.validators[op.i];
        assert (time - v.start) * v.effectiveBalance == v.effectiveBalance * (time - v.start);
      }
    }
  }

  /** An entry leaves the pool in these ways only, and its bond goes to its owner or to the slasher. */
  lemma EntryRemoved(p: Pool, op: Op, time: nat, i: nat)
    requires Solvent(p) && Execute(p, op, time).Done? && i in p.validators
    ensures i !in Execute(p, op, time).pool.validators <==> Removes(op, i, p.validators[i])
    ensures Removes(op, i, p.validators[i]) ==>
      Execute(p, op, time).payment ==
        Pay(if op.Slash? then op.sender else p.validators[i].withdrawal, 100_000_000_000_000_000)
  {
    EntriesLaw(p, op, time);
    if Removes(op, i, p.validators[i]) {
      BondPaid(p, op, time);
    }
    hide Execute;
  }

  lemma BondPaid(p: Pool, op: Op, time: nat)
    requires Solvent(p) && Execute(p, op, time).Done?
    requires op.Exit? || op.Slash? || (op.Update? && op.active == Success(false))
    requires op.i in p.validators
    ensures Execute(p, op, time).payment ==
      Pay(if op.Slash? then op.sender else p.validators[op.i].withdrawal, 100_000_000_000_000_000)
  {
    RebalanceEffect(p, time);
    hide Rebalance;
  }

  /** An entry comes into the pool only by a registration with 0.1 ETH and an accepted record. */
  lemma EntryAdded(p: Pool, op: Op, time: nat, i: nat)
    requires Solvent(p) && Execute(p, op, time).Done? && i !in p.validators
    ensures i in Execute(p, op, time).pool.validators <==> op.Register? && op.i == i
    ensures op.Register? && op.i == i ==>
      op.value == 100_000_000_000_000_000 && op.claim.Success?
      && Execute(p, op, time).pool.validators[i] == Joined(op.claim.value, time)
  {
    EntriesLaw(p, op, time);
    if op.Register? {
      hide Rebalance, Enroll;
      assert op.value == 100_000_000_000_000_000;
    }
    hide Execute;
  }

  /** An entry that stays changes only by its own withdrawal or update. */
  lemma EntryKept(p: Pool, op: Op, time: nat, i: nat)
    requires Solvent(p) && Execute(p, op, time).Done? && i in p.validators
    requires i in Execute(p, op, time).pool.validators
    ensures var v, q := p.validators[i], Execute(p, op, time).pool;
      if op.Withdraw? && op.i == i then q.validators[i] == v.(start := q.lastRebalance, smooths := 0)
      else if op.Update? && op.i == i then
        op.active == Success(true) && v.start < q.lastRebalance <= time
        && q.validators[i] == Updated(v, op.effectiveBalance, time)
      else q.validators[i] == v
  {
    EntriesLaw(p, op, time);
    hide Execute;
  }

  /** An update makes the proven stake the pending one. */
  lemma UpdateAllocates(p: Pool, op: Op, time: nat)
    requires op.Update? && op.active == Success(true) && Execute(p, op, time).Done?
    ensures Execute(p, op, time).pool.pendingEB == (if Due(p, time) then 0 else p.pendingEB) + op.effectiveBalance
    ensures Execute(p, op, time).pool.totalEB + p.Entry(op.i).effectiveBalance ==
      if Due(p, time) then p.totalEB + p.pendingEB else p.totalEB
  {
    RebalanceEffect(p, time);
    hide Rebalance;
  }

  // ----- ETH -----

  /** The ETH that comes with a call. */
  function Received(op: Op): nat {
    match op
    case Register(_, value, _) => value
    case Receive(value) => value
    case _ => 0
  }

  /** Nothing is paid but claims and bonds, and the balance moves by what comes in and goes out. */
  lemma EthConserved(p: Pool, op: Op, time: nat)
    requires Solvent(p) && Execute(p, op, time).Done?
    ensures Execute(p, op, time).pool.balance + Amount(Execute(p, op, time).payment) == p.balance + Received(op)
    ensures Execute(p, op, time).payment == Nothing <==>
      op.Register? || op.Receive? || op.RebalanceOnly? || (op.Update? && op.active == Success(true))
    ensures op.Register? ==> op.value == 100_000_000_000_000_000
  {
    hide Claimable, Payout, Rebalance;
    if !op.Receive? {
      RebalanceEffect(p, time);
    }
  }

  /** A withdrawal pays the validator's own address for all its units, and takes them out of the pool. */
  lemma WithdrawalPays(p: Pool, op: Op, time: nat)
    requires Solvent(p) && op.Withdraw? && Execute(p, op, time).Done?
    ensures op.i in p.validators && op.verdict.Success? && op.sent && p.validators[op.i].start <= op.timestamp
    ensures var v, q := p.validators[op.i], Execute(p, op, time).pool;
      var share, units := UnitsOf(v, q.lastRebalance), Rebalance(p, time).value.smooths;
      && 0 <= share <= units && units > 0 && p.balance > p.totalBond
      && share * 1_000_000_000_000_000_000 < TWO_256
      && (share * 1_000_000_000_000_000_000 / units) * (p.balance - p.totalBond) < TWO_256
      && q.smooths == units - share
      && Execute(p, op, time).payment == Pay(v.withdrawal, Payout(share, units, p.balance - p.totalBond))
  {
    hide Payout;
    RebalanceEffect(p, time);
    hide Rebalance;
  }

  // ----- what completes -----

  /** Why a transaction is refused once the pool is rebalanced, in the order of the checks. */
  function Refusal(p: Pool, op: Op): Option<PoolError> {
    match op
    case Register(i, value, claim) =>
      if value != 100_000_000_000_000_000 then Some(BondNotSatisfied)
      else if i in p.validators then Some(AlreadyRegistered)
      else if claim.Failure? then Some(claim.error)
      else None
    case Withdraw(i, timestamp, verdict, sent) =>
      if i !in p.validators then Some(Unregistered)
      else if timestamp < p.validators[i].start then Some(InvalidBlockTimestamp)
      else if p.balance == p.totalBond then Some(EmptyPool)
      else if verdict.Failure? then Some(verdict.error)
      else if p.smooths == 0 then Some(WithdrawalsDisabled)
      else if !sent then Some(SendFailed)
      else None
    case Update(i, active, _, sent) =>
      if i !in p.validators then Some(Unregistered)
      else if active.Failure? then Some(active.error)
      else if active.value && p.validators[i].start >= p.lastRebalance then Some(UpdateNotAvailable)
      else if !active.value && !sent then Some(SendFailed)
      else None
    case Slash(i, verdict, correct, _, sent) =>
      if i !in p.validators then Some(Unregistered)
      else if verdict.Failure? then Some(verdict.error)
      else if correct then Some(CorrectFeeRecipient)
      else if !sent then Some(SendFailed)
      else None
    case Exit(i, sender, sent) =>
      if sender != p.Entry(i).withdrawal then Some(NotOwner)
      else if !sent then Some(SendFailed)
      else None
    case _ => None
  }

  /** A completed transaction had nothing against it, in any state; a refused one reverts. */
  lemma CompletedIsAdmissible(p: Pool, op: Op, time: nat)
    requires Solvent(p) && Execute(p, op, time).Done?
    ensures Rebalance(p, time).Some? || op.Receive?
    ensures !op.Receive? ==> Refusal(Rebalance(p, time).value, op) == None
  {
    hide Claimable, Allocate;
    if !op.Receive? {
      RebalanceEffect(p, time);
      hide Rebalance;
    }
  }

  /** Against the pool itself as fee recipient there is no slash, whatever the proof. */
  lemma OwnRecipientSafe(p: Pool, op: Op, time: nat)
    requires op.Slash? && op.correct
    ensures Execute(p, op, time).Reverted? && Next(p, op, time) == p
    ensures Rebalance(p, time).Some? && p.Entry(op.i).start > 0 && op.verdict.Success? ==>
      Execute(p, op, time) == Reverted(CorrectFeeRecipient)
  {
    hide ExitValidator;
  }

  /** On exact books, a careful transaction completes exactly if nothing is against it. */
  lemma CompletesIff(b: Book, op: Op, time: nat)
    requires Good(b.pool, b.pending) && InputsFit(op) && Careful(b, op, time)
    requires b.pool.lastRebalance <= time < TWO_64
    ensures Rebalance(b.pool, time).Some?
    ensures var refusal := Refusal(Rebalance(b.pool, time).value, op);
      if refusal == None then Execute(b.pool, op, time).Done?
      else Execute(b.pool, op, time) == Reverted(refusal.value)
  {
    hide Books, Sized, Fair, Timely;
    RebalanceFits(b.pool, b.pending, time);
    StepNoPanic(b, op, time);
    RebalanceEffect(b.pool, time);
    if !op.Receive? {
      RefusalIsReason(b.pool, op, time);
    }
  }

  lemma RefusalIsReason(p: Pool, op: Op, time: nat)
    requires Solvent(p) && !op.Receive? && Rebalance(p, time).Some?
    requires Execute(p, op, time) != Reverted(Panic)
    ensures var refusal := Refusal(Rebalance(p, time).value, op);
      if refusal == None then Execute(p, op, time).Done?
      else Execute(p, op, time) == Reverted(refusal.value)
  {
    hide Claimable, Allocate, Payout;
    RebalanceEffect(p, time);
    var q := Rebalance(p, time).value;
    hide Rebalance;
    if (op.Withdraw? || op.Update? || op.Slash? || op.Exit?) && op.i in p.validators {
      BondCovered(p, op.i);
      var share := Claimable(q, q.Entry(op.i));
      if q.smooths > 0 && 0 <= share <= q.smooths {
        PayoutBounded(share, q.smooths, q.balance - q.totalBond);
      }
    }
  }

  /** On a careful run every transaction completes exactly if nothing is against it. */
  lemma RunCompletesIff(time: nat, txs: seq<Tx>, n: nat)
    requires time > 0 && n < |txs|
    requires CarefulRun(time, txs) && ClockOk(time, txs) && InputsOk(time, txs)
    requires var b := BookRun(time, txs[..n]); Careful(b, txs[n].op, txs[n].time)
    ensures var p := Run(Deployed(time), txs[..n]);
      Rebalance(p, txs[n].time).Some? &&
      var refusal := Refusal(Rebalance(p, txs[n].time).value, txs[n].op);
      if refusal == None then Execute(p, txs[n].op, txs[n].time).Done?
      else Execute(p, txs[n].op, txs[n].time) == Reverted(refusal.value)
  {
    hide Refusal, Execute, Track, Books, Sized, Solvent, Careful, CarefulAt, Rebalance;
    RunGood(time, txs, n);
    BookRunPool(time, txs[..n]);
    assert InputsFit(txs[n].op) && Before(time, txs, n) <= txs[n].time;
    CompletesIff(BookRun(time, txs[..n]), txs[n].op, txs[n].time);
  }

  /** On exact books an owner gets out with the bond, unless it withdrew since the last rebalance. */
  lemma OwnerCanLeave(b: Book, i: nat, time: nat)
    requires Good(b.pool, b.pending) && i in b.pool.validators
    requires b.pool.lastRebalance <= time < TWO_64
    requires Timely(b, Op.Exit(i, b.pool.validators[i].withdrawal, true), time)
    ensures var owner := b.pool.validators[i].withdrawal;
      var o := Execute(b.pool, Op.Exit(i, owner, true), time);
      o.Done? && i !in o.pool.validators && o.payment == Pay(owner, 100_000_000_000_000_000)
  {
    hide Execute, Books, Timely, Sized, Solvent;
    var op := Op.Exit(i, b.pool.validators[i].withdrawal, true);
    assert Careful(b, op, time);
    CompletesIff(b, op, time);
    RebalanceEffect(b.pool, time);
    EntryRemoved(b.pool, op, time, i);
  }

  // ----- word size -----

  /** Every accumulator and every entry fits its storage word. */
  ghost predicate WordSized(p: Pool) {
    p.totalEB < TWO_256 && p.totalBond < TWO_256 && p.smooths < TWO_256 && p.pendingEB < TWO_256
    && p.pendingSmooths < TWO_256 && forall i :: i in p.validators ==> p.validators[i].smooths < TWO_256
  }

  /** No sum or product that is stored wraps around, careful or not. */
  lemma StepWordSized(p: Pool, op: Op, time: nat)
    requires WordSized(p)
    ensures WordSized(Next(p, op, time))
  {
    hide RegisterStep, WithdrawStep, UpdateStep, ExitValidator;
    if !op.Receive? && Execute(p, op, time).Done? {
      var q := Rebalance(p, time).value;
      assert WordSized(q);
      hide Rebalance;
      match op
      case Register(i, value, claim) => EnrollWordSized(q, i, value, claim, time);
      case Withdraw(i, timestamp, verdict, sent) => WithdrawWordSized(q, i, timestamp, verdict, sent);
      case Update(i, active, effectiveBalance, sent) =>
        RenewWordSized(q, i, active, effectiveBalance, sent, time);
        ExitWordSized(q, i, q.Entry(i).withdrawal, sent);
      case Slash(i, verdict, correct, sender, sent) => ExitWordSized(q, i, sender, sent);
      case Exit(i, sender, sent) => ExitWordSized(q, i, sender, sent);
      case _ =>
    }
  }

  lemma EnrollWordSized(p: Pool, i: nat, value: nat, claim: Result<Entrant, PoolError>, time: nat)
    requires WordSized(p) && RegisterStep(p, i, value, claim, time).Done?
    ensures WordSized(RegisterStep(p, i, value, claim, time).pool)
  {
  }

  lemma WithdrawWordSized(p: Pool, i: nat, timestamp: nat, verdict: Result<bool, PoolError>, sent: bool)
    requires WordSized(p) && WithdrawStep(p, i, timestamp, verdict, sent).Done?
    ensures WordSized(WithdrawStep(p, i, timestamp, verdict, sent).pool)
  {
    hide Claimable, Payout;
  }

  lemma RenewWordSized(p: Pool, i: nat, active: Result<bool, PoolError>, effectiveBalance: uint64,
                       sent: bool, time: nat)
    requires WordSized(p) && UpdateStep(p, i, active, effectiveBalance, sent, time).Done?
    ensures active.Success?
    ensures active.value ==> WordSized(UpdateStep(p, i, active, effectiveBalance, sent, time).pool)
    ensures !active.value ==>
      UpdateStep(p, i, active, effectiveBalance, sent, time) == ExitValidator(p, i, p.Entry(i).withdrawal, sent)
  {
    hide ExitValidator;
  }

  lemma ExitWordSized(p: Pool, i: nat, to: Address, sent: bool)
    requires WordSized(p)
    ensures ExitValidator(p, i, to, sent).Done? ==> WordSized(ExitValidator(p, i, to, sent).pool)
  {
    var v := p.Entry(i);
    ShareOut(p, v);
  }

  /** What an exit subtracts is not negative. */
  lemma ShareOut(p: Pool, v: Validator)
    ensures v.start < p.lastRebalance ==> Shares(p, v) >= 0
    ensures v.start <= p.lastRebalance + REBALANCE_PERIOD ==>
      v.effectiveBalance * (REBALANCE_PERIOD - (v.start - p.lastRebalance)) >= 0
  {
    if v.start < p.lastRebalance {
      MulMonotone(v.effectiveBalance, 0, p.lastRebalance - v.start);
    }
    if v.start <= p.lastRebalance + REBALANCE_PERIOD {
      MulMonotone(v.effectiveBalance, 0, REBALANCE_PERIOD - (v.start - p.lastRebalance));
    }
  }

  lemma {:induction false} RunWordSized(time: nat, txs: seq<Tx>)
    ensures WordSized(Run(Deployed(time), txs))
  {
    hide Next, WordSized;
    if txs == [] {
      DeployedWordSized(time);
    } else {
      var last := |txs| - 1;
      RunWordSized(time, txs[..last]);
      StepWordSized(Run(Deployed(time), txs[..last]), txs[last].op, txs[last].time);
    }
  }

  lemma DeployedWordSized(time: nat)
    ensures WordSized(Deployed(time))
  {
  }
}
