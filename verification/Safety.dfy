/**
 Checked arithmetic never fails: on careful runs with a 64-bit clock and
 64-bit stakes no subtraction underflows and no sum or product overflows 256 bits.
 */
module Safety {
  import opened Bits
  import opened Arithmetic
  import opened Sums
  import opened Wrappers
  import opened Ledger
  import BeaconOracle
  import opened Accounting
  import opened Runs

  const TWO_21: nat := 0x20_0000
  const TWO_192: nat := TWO_64 * TWO_128

  /** Timestamps and keys are 64-bit, and the ETH in existence fits 128 bits. */
  ghost predicate Sized(p: Pool) {
    p.lastRebalance < TWO_64 && p.balance < TWO_128 &&
    forall i :: i in p.validators ==> EntrySized(i, p.validators[i])
  }

  predicate EntrySized(i: nat, v: Validator) {
    i < TWO_64 && v.start < TWO_64 && v.smooths <= TWO_64 * v.start
  }

  lemma CreditBounded(v: Validator, last: nat, isPending: bool)
    requires EntrySized(0, v) && (isPending || v.start <= last) && last < TWO_64
    ensures 0 <= CreditUnits(v, last, isPending) <= TWO_128
  {
    if isPending {
      MulBounds(TWO_64, v.start, TWO_64, TWO_64);
    } else {
      MulBounds(last - v.start, v.effectiveBalance, last - v.start, TWO_64);
      assert TWO_64 * v.start + (last - v.start) * TWO_64 == TWO_64 * last;
      MulBounds(TWO_64, last, TWO_64, TWO_64);
    }
  }

  lemma LateBounded(v: Validator, last: nat)
    requires last <= v.start <= last + REBALANCE_PERIOD
    ensures 0 <= LateUnits(v, last) <= TWO_64 * TWO_21
  {
    MulBounds(v.effectiveBalance, REBALANCE_PERIOD - (v.start - last), TWO_64, TWO_21);
  }

  lemma KeysBounded(p: Pool)
    requires Sized(p)
    ensures |p.validators.Keys| <= TWO_64 && |p.validators| == |p.validators.Keys|
  {
    forall i | i in p.validators.Keys
      ensures i < TWO_64
    {
      assert EntrySized(i, p.validators[i]);
    }
    BoundedKeys(p.validators.Keys, TWO_64);
  }

  lemma SumCapped(s: set<nat>, f: nat -> int, bound: nat)
    requires |s| <= TWO_64 && forall x :: x in s ==> 0 <= f(x) <= bound
    ensures 0 <= Sum(s, f) <= TWO_64 * bound
  {
    SumBounds(s, f, bound);
    MulMonotone(bound, |s|, TWO_64);
  }

  lemma SubsetCard(s: set<nat>, t: set<nat>)
    requires s <= t
    ensures |s| <= |t|
  {
    assert t == s + (t - s);
  }

  /** On sized pools with balanced books every accumulator is far from overflowing. */
  lemma AccumulatorsBounded(p: Pool, pending: set<nat>)
    requires Books(p, pending, NONE) && Sized(p)
    ensures p.totalEB <= TWO_128 && p.pendingEB <= TWO_128
    ensures p.pendingSmooths <= TWO_64 * (TWO_64 * TWO_21)
    ensures p.smooths <= TWO_192
  {
    hide Sum, EB, Late, Credit, LateUnits, CreditUnits;
    var vs, last := p.validators, p.lastRebalance;
    KeysBounded(p);
    SubsetCard(pending, vs.Keys);
    SubsetCard(vs.Keys - pending, vs.Keys);
    TermsBounded(p, pending);
    SumCapped(pending, EB(vs), TWO_64);
    SumCapped(vs.Keys - pending, EB(vs), TWO_64);
    SumCapped(pending, Late(vs, last), TWO_64 * TWO_21);
    SumCapped(vs.Keys, Credit(vs, last, pending), TWO_128);
  }

  lemma TermsBounded(p: Pool, pending: set<nat>)
    requires AllPlaced(p, pending) && Sized(p)
    ensures forall i :: i in p.validators.Keys ==> 0 <= EB(p.validators)(i) <= TWO_64
    ensures forall i :: i in pending ==> 0 <= Late(p.validators, p.lastRebalance)(i) <= TWO_64 * TWO_21
    ensures forall i :: i in p.validators.Keys ==> 0 <= Credit(p.validators, p.lastRebalance, pending)(i) <= TWO_128
  {
    hide LateUnits, CreditUnits;
    forall i | i in p.validators.Keys
      ensures 0 <= Credit(p.validators, p.lastRebalance, pending)(i) <= TWO_128
      ensures i in pending ==> 0 <= Late(p.validators, p.lastRebalance)(i) <= TWO_64 * TWO_21
    {
      var v := p.validators[i];
      assert EntrySized(i, v) && Placed(v, i in pending, p.lastRebalance);
      CreditBounded(v, p.lastRebalance, i in pending);
      if i in pending {
        LateBounded(v, p.lastRebalance);
      }
    }
  }

  lemma RebalanceFits(p: Pool, pending: set<nat>, time: nat)
    requires Books(p, pending, NONE) && Sized(p)
    requires p.lastRebalance <= time < TWO_64
    ensures Rebalance(p, time).Some?
    ensures Sized(Rebalance(p, time).value)
  {
    hide Sum, EB, Late, Credit, LateUnits, CreditUnits;
    if Fires(p, time) {
      RebalanceSums(p, pending, NONE, time);
      AccumulatorsBounded(p, pending);
      KeysBounded(p);
      AccruedBounded(p, pending, time);
      SumCapped(p.validators.Keys, Credit(p.validators, time, {}), TWO_128);
    }
  }

  lemma AccruedBounded(p: Pool, pending: set<nat>, time: nat)
    requires AllPlaced(p, pending) && Sized(p) && Fires(p, time) && time < TWO_64
    ensures forall i :: i in p.validators.Keys ==> 0 <= Credit(p.validators, time, {})(i) <= TWO_128
  {
    hide CreditUnits;
    forall i | i in p.validators.Keys
      ensures 0 <= Credit(p.validators, time, {})(i) <= TWO_128
    {
      var v := p.validators[i];
      assert EntrySized(i, v) && Placed(v, i in pending, p.lastRebalance);
      CreditBounded(v, time, false);
    }
  }

  lemma MemberBelow(p: Pool, pending: set<nat>, i: nat)
    requires Books(p, pending, NONE) && Sized(p) && i in p.validators
    ensures i in pending ==>
      p.validators[i].effectiveBalance <= p.pendingEB &&
      0 <= LateUnits(p.validators[i], p.lastRebalance) <= p.pendingSmooths
    ensures i !in pending ==> p.validators[i].effectiveBalance <= p.totalEB
    ensures 0 <= CreditUnits(p.validators[i], p.lastRebalance, i in pending) <= p.smooths
    ensures CreditUnits(p.validators[i], p.lastRebalance, i in pending) <= TWO_128
  {
    hide Sum, LateUnits, CreditUnits;
    var vs, last := p.validators, p.lastRebalance;
    TermsBounded(p, pending);
    SumMember(vs.Keys, Credit(vs, last, pending), i);
    if i in pending {
      SumMember(pending, EB(vs), i);
      SumMember(pending, Late(vs, last), i);
    } else {
      SumMember(vs.Keys - pending, EB(vs), i);
    }
  }

  ghost predicate Good(p: Pool, pending: set<nat>) {
    Books(p, pending, NONE) && Sized(p) && Solvent(p)
  }

  lemma RegisterNoPanic(p: Pool, pending: set<nat>, i: nat, value: nat, claim: Result<Entrant, PoolError>, time: nat)
    requires Good(p, pending) && claim != Failure(Panic)
    requires p.lastRebalance <= time <= p.lastRebalance + REBALANCE_PERIOD
    ensures RegisterStep(p, i, value, claim, time) != Reverted(Panic)
  {
    hide Books;
    AccumulatorsBounded(p, pending);
    KeysBounded(p);
    MulMonotone(BOND, |p.validators|, TWO_64);
    if claim.Success? {
      MulBounds(claim.value.effectiveBalance, REBALANCE_PERIOD - (time - p.lastRebalance), TWO_64, TWO_21);
    }
  }

  lemma WithdrawNoPanic(p: Pool, pending: set<nat>, i: nat, timestamp: nat, verdict: Result<bool, PoolError>,
                        sent: bool)
    requires Good(p, pending) && verdict != Failure(Panic)
    ensures WithdrawStep(p, i, timestamp, verdict, sent) != Reverted(Panic)
  {
    hide Books, CreditUnits, Claimable, Payout;
    var v := p.Entry(i);
    if v.start > 0 && p.smooths > 0 {
      MemberBelow(p, pending, i);
      assert AllPlaced(p, pending) by { BooksPlaced(p, pending); }
      ClaimIsCredit(p, pending, i);
      var share: nat := Claimable(p, v);
      MulBounds(share, BPS, TWO_128, BPS);
      QuotientAtMost(share, p.smooths);
      if p.balance >= p.totalBond {
        MulBounds(share * BPS / p.smooths, p.balance - p.totalBond, BPS, TWO_128);
      }
    }
  }

  lemma BooksPlaced(p: Pool, pending: set<nat>)
    requires Books(p, pending, NONE)
    ensures AllPlaced(p, pending)
  {
  }

  lemma ExitNoPanic(p: Pool, pending: set<nat>, i: nat, to: BeaconOracle.Address, sent: bool)
    requires Good(p, pending) && MayLeave(p, pending, i)
    ensures ExitValidator(p, i, to, sent) != Reverted(Panic)
  {
    hide Balanced;
    if i in p.validators {
      MemberBelow(p, pending, i);
      BondCovered(p, i);
      assert Placed(p.validators[i], i in pending, p.lastRebalance);
    }
  }

  lemma BondCovered(p: Pool, i: nat)
    requires Solvent(p) && i in p.validators
    ensures p.validators[i].bond <= p.totalBond
  {
    assert p.validators.Keys == {i} + (p.validators.Keys - {i});
    MulMonotone(BOND, 1, |p.validators|);
  }

  lemma UpdateNoPanic(p: Pool, pending: set<nat>, i: nat, active: Result<bool, PoolError>,
                      effectiveBalance: uint64, sent: bool, time: nat)
    requires Good(p, pending) && active != Failure(Panic)
    requires active == Success(false) ==> MayLeave(p, pending, i)
    requires p.lastRebalance <= time <= p.lastRebalance + REBALANCE_PERIOD && time < TWO_64
    ensures UpdateStep(p, i, active, effectiveBalance, sent, time) != Reverted(Panic)
  {
    hide Books, CreditUnits, LateUnits, ExitValidator;
    var v := p.Entry(i);
    if active == Success(false) {
      ExitNoPanic(p, pending, i, v.withdrawal, sent);
    } else if active.Success? && 0 < v.start < p.lastRebalance {
      AccumulatorsBounded(p, pending);
      MemberBelow(p, pending, i);
      assert i !in pending by { BooksPlaced(p, pending); assert Placed(v, i in pending, p.lastRebalance); }
      assert EntrySized(i, v);
      CreditGrows(v, time);
      MulBounds(effectiveBalance, REBALANCE_PERIOD - (time - p.lastRebalance), TWO_64, TWO_21);
    }
  }

  lemma CreditGrows(v: Validator, time: nat)
    requires v.smooths <= TWO_64 * v.start && v.start <= time < TWO_64
    ensures 0 <= (time - v.start) * v.effectiveBalance
    ensures v.smooths + (time - v.start) * v.effectiveBalance <= TWO_64 * time <= TWO_128
  {
    MulBounds(time - v.start, v.effectiveBalance, time - v.start, TWO_64);
    assert TWO_64 * v.start + (time - v.start) * TWO_64 == TWO_64 * time;
    MulBounds(TWO_64, time, TWO_64, TWO_64);
  }

  /** Calldata in range, and no panic inside the oracle's own code. */
  predicate InputsFit(op: Op) {
    match op
    case Register(i, _, claim) => i < TWO_64 && claim != Failure(Panic)
    case Withdraw(_, _, verdict, _) => verdict != Failure(Panic)
    case Update(_, active, _, _) => active != Failure(Panic)
    case Slash(_, verdict, _, _, _) => verdict != Failure(Panic)
    case _ => true
  }

  /** One careful transaction on exact books cannot fail in its arithmetic. */
  lemma StepNoPanic(b: Book, op: Op, time: nat)
    requires Good(b.pool, b.pending) && InputsFit(op) && Careful(b, op, time)
    requires b.pool.lastRebalance <= time < TWO_64
    ensures Execute(b.pool, op, time) != Reverted(Panic)
  {
    hide Books, RegisterStep, WithdrawStep, UpdateStep, ExitValidator, Settled, Punctual, MayLeave, Sized;
    if !op.Receive? {
      var pending := PendingAfter(b.pool, b.pending, time);
      RebalanceFits(b.pool, b.pending, time);
      RebalanceKeepsBooks(b.pool, b.pending, NONE, time);
      var q := Rebalance(b.pool, time).value;
      match op
      case Register(i, value, claim) => RegisterNoPanic(q, pending, i, value, claim, time);
      case Withdraw(i, timestamp, verdict, sent) => WithdrawNoPanic(q, pending, i, timestamp, verdict, sent);
      case Update(i, active, effectiveBalance, sent) =>
        UpdateNoPanic(q, pending, i, active, effectiveBalance, sent, time);
      case Slash(i, verdict, correct, sender, sent) => ExitNoPanic(q, pending, i, sender, sent);
      case Exit(i, sender, sent) => ExitNoPanic(q, pending, i, sender, sent);
      case RebalanceOnly =>
      case Receive(_) =>
    }
  }

  lemma StepSized(b: Book, op: Op, time: nat)
    requires Good(b.pool, b.pending) && InputsFit(op)
    requires b.pool.lastRebalance <= time < TWO_64
    requires Next(b.pool, op, time).balance < TWO_128
    ensures Sized(Next(b.pool, op, time))
    ensures Next(b.pool, op, time).lastRebalance <= time
  {
    hide Balanced, Payout, Claimable, Shares;
    if !op.Receive? && Execute(b.pool, op, time).Done? {
      RebalanceFits(b.pool, b.pending, time);
      RebalanceKeepsBooks(b.pool, b.pending, NONE, time);
      var q := Rebalance(b.pool, time).value;
      EntriesSized(q, op, time);
    }
  }

  lemma EntriesSized(q: Pool, op: Op, time: nat)
    requires Sized(q) && q.lastRebalance <= time < TWO_64 && InputsFit(op)
    requires AfterRebalance(q, op, time).Done?
    ensures forall i :: i in AfterRebalance(q, op, time).pool.validators ==>
      EntrySized(i, AfterRebalance(q, op, time).pool.validators[i])
    ensures AfterRebalance(q, op, time).pool.lastRebalance == q.lastRebalance
  {
    hide Payout, Claimable, Shares;
    if op.Update? && op.active.Success? && op.active.value {
      assert op.i in q.validators && EntrySized(op.i, q.validators[op.i]);
      CreditGrows(q.validators[op.i], time);
    }
  }

  // ----- runs -----

  /** The block time before transaction n: the deployment's for the first. */
  function Before(time: nat, txs: seq<Tx>, n: nat): nat
    requires n <= |txs|
  {
    if n == 0 then time else txs[n - 1].time
  }

  ghost predicate ClockOk(time: nat, txs: seq<Tx>) {
    time < TWO_64 && forall n: nat :: n < |txs| ==> Before(time, txs, n) <= txs[n].time < TWO_64
  }

  ghost predicate InputsOk(time: nat, txs: seq<Tx>) {
    (forall n: nat :: n < |txs| ==> InputsFit(txs[n].op)) &&
    (forall n: nat :: n <= |txs| ==> BookRun(time, txs[..n]).pool.balance < TWO_128)
  }

  lemma {:induction false} RunGood(time: nat, txs: seq<Tx>, n: nat)
    requires time > 0 && n <= |txs|
    requires CarefulRun(time, txs) && ClockOk(time, txs) && InputsOk(time, txs)
    ensures var b := BookRun(time, txs[..n]);
      Good(b.pool, b.pending) && b.errors == NONE && b.pool.lastRebalance <= Before(time, txs, n)
  {
    hide Track, Books, Execute, Sized, Solvent, Careful, CarefulAt, InputsFit, Next;
    CarefulPrefix(time, txs, n);
    RunKeepsBooks(time, txs[..n]);
    BookRunPool(time, txs[..n]);
    RunSolvent(time, txs[..n]);
    if n == 0 {
      assert txs[..0] == [];
      DeployedSized(time);
    } else {
      RunGood(time, txs, n - 1);
      BookRunStep(time, txs, n - 1);
      var k: nat := n - 1;
      assert InputsFit(txs[k].op) && Before(time, txs, k) <= txs[k].time < TWO_64;
      assert BookRun(time, txs[..n]).pool.balance < TWO_128;
      RunGoodStep(BookRun(time, txs[..k]), txs[k].op, txs[k].time);
    }
  }

  lemma RunGoodStep(b: Book, op: Op, time: nat)
    requires Good(b.pool, b.pending) && InputsFit(op) && b.pool.lastRebalance <= time < TWO_64
    requires Track(b, op, time).pool.balance < TWO_128
    ensures Sized(Track(b, op, time).pool) && Track(b, op, time).pool.lastRebalance <= time
  {
    hide Track, Next, Good, Sized;
    TrackPool(b, op, time);
    StepSized(b, op, time);
  }

  lemma DeployedSized(time: nat)
    requires time < TWO_64
    ensures Sized(Deployed(time))
  {
  }

  /** Every transaction of such a run gets through its checked arithmetic. */
  lemma NoArithmeticFailure(time: nat, txs: seq<Tx>, n: nat)
    requires time > 0 && n < |txs|
    requires CarefulRun(time, txs) && ClockOk(time, txs) && InputsOk(time, txs)
    ensures Careful(BookRun(time, txs[..n]), txs[n].op, txs[n].time)
        ==> Execute(BookRun(time, txs[..n]).pool, txs[n].op, txs[n].time) != Reverted(Panic)
  {
    hide Track, Books, Execute, Sized, Solvent, Careful, CarefulAt;
    RunGood(time, txs, n);
    var b := BookRun(time, txs[..n]);
    if Careful(b, txs[n].op, txs[n].time) {
      StepNoPanic(b, txs[n].op, txs[n].time);
    }
  }
}
