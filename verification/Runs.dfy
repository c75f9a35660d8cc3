/** Whole runs of the pool: what holds after any sequence of transactions. */
module Runs {
  import opened Bits
  import opened Sums
  import opened Wrappers
  import opened Ledger
  import opened Accounting

  // The pool together with the proof-side bookkeeping.
  datatype Book = Book(pool: Pool, pending: set<nat>, errors: Errors)

  predicate Leaves(op: Op) {
    op.Exit? || op.Slash? || (op.Update? && op.active == Success(false))
  }

  predicate Renews(op: Op) {
    op.Update? && op.active == Success(true)
  }

  ghost function Track(b: Book, op: Op, time: nat): Book {
    match Execute(b.pool, op, time)
    case Reverted(_) => b
    case Done(q, _) =>
      if op.Receive? then b.(pool := q)
      else
        var p := Rebalance(b.pool, time).value;
        var pending, e := PendingAfter(b.pool, b.pending, time), ErrorsAfter(b.pool, b.errors, time);
        if op.Register? then Book(q, pending + {op.i}, e)
        else if op.Withdraw? then Book(q, pending, e.(misdated := e.misdated + Misdating(p, op.i)))
        else if Renews(op) then Book(q, pending + {op.i}, e.(drift := e.drift + Overcredit(p, op.i, time)))
        else if Leaves(op) then Book(q, pending - {op.i}, e.(shifted := e.shifted + Shift(p, pending, op.i)))
        else Book(q, pending, e)
  }

  lemma TrackPool(b: Book, op: Op, time: nat)
    ensures Track(b, op, time).pool == Next(b.pool, op, time)
  {
  }

  // ----- conditions a caller can check beforehand -----

  /** Not a validator that registered or was updated after the last rebalance. */
  predicate Settled(p: Pool, i: nat) {
    p.Entry(i).start <= p.lastRebalance || p.Entry(i).effectiveBalance == 0
  }

  /** The update runs in the block of the rebalance itself. */
  predicate Punctual(p: Pool, i: nat, time: nat) {
    time == p.lastRebalance || p.Entry(i).effectiveBalance == 0
  }

  /** Not an active validator that withdrew since the last rebalance. */
  predicate MayLeave(p: Pool, pending: set<nat>, i: nat) {
    i !in pending ==> p.Entry(i).start < p.lastRebalance || p.Entry(i).effectiveBalance == 0
  }

  /**
   Storage alone tells whether a validator may leave unless its start is the last
   rebalance: then it either joined in that block or withdrew since, and the history
   of its transactions tells which.
   */
  lemma MayLeaveByStart(p: Pool, pending: set<nat>, i: nat)
    requires AllPlaced(p, pending)
    ensures p.Entry(i).start != p.lastRebalance ==> MayLeave(p, pending, i)
    ensures p.Entry(i).start == p.lastRebalance && p.Entry(i).effectiveBalance > 0 ==>
      (MayLeave(p, pending, i) <==> i in pending)
  {
    if i in p.validators {
      assert Placed(p.validators[i], i in pending, p.lastRebalance);
    }
  }

  /** Withdrawals are settled and updates punctual: the units stay right. */
  ghost predicate Fair(b: Book, op: Op, time: nat) {
    !op.Receive? && Rebalance(b.pool, time).Some? ==>
      var p := Rebalance(b.pool, time).value;
      (op.Withdraw? ==> Settled(p, op.i)) && (Renews(op) ==> Punctual(p, op.i, time))
  }

  /** Exits come before a withdrawal or after the next rebalance. */
  ghost predicate Timely(b: Book, op: Op, time: nat) {
    !op.Receive? && Rebalance(b.pool, time).Some? && Leaves(op) ==>
      MayLeave(Rebalance(b.pool, time).value, PendingAfter(b.pool, b.pending, time), op.i)
  }

  /** The units stay right, and the split of the stake as well. */
  ghost predicate Careful(b: Book, op: Op, time: nat) {
    Fair(b, op, time) && Timely(b, op, time)
  }

  ghost predicate Kept(b: Book) {
    Books(b.pool, b.pending, b.errors)
  }

  /** Every transaction that completes moves accumulators and sums together. */
  lemma StepKeepsBooks(b: Book, op: Op, time: nat)
    requires Kept(b) && Execute(b.pool, op, time).Done?
    ensures Kept(Track(b, op, time))
  {
    hide Books, RegisterStep, WithdrawStep, UpdateStep, ExitValidator, Rebalance, Overcredit, Misdating, Shift;
    if op.Receive? {
      ReceiveKeepsBooks(b, op.value);
    } else {
      RebalanceKeepsBooks(b.pool, b.pending, b.errors, time);
      var p := Rebalance(b.pool, time).value;
      var pending, e := PendingAfter(b.pool, b.pending, time), ErrorsAfter(b.pool, b.errors, time);
      match op
      case Register(i, value, claim) => RegisterKeepsBooks(p, pending, e, i, value, claim, time);
      case Withdraw(i, timestamp, verdict, sent) => WithdrawKeepsBooks(p, pending, e, i, timestamp, verdict, sent);
      case Update(i, active, effectiveBalance, sent) =>
        UpdateAnswers(p, i, active, effectiveBalance, sent, time);
        if active.value {
          UpdateKeepsBooks(p, pending, e, i, active, effectiveBalance, sent, time);
        } else {
          ExitKeepsBooks(p, pending, e, i, p.Entry(i).withdrawal, sent);
        }
      case Slash(i, verdict, correct, sender, sent) => ExitKeepsBooks(p, pending, e, i, sender, sent);
      case Exit(i, sender, sent) => ExitKeepsBooks(p, pending, e, i, sender, sent);
      case RebalanceOnly =>
      case Receive(_) =>
    }
  }

  /** Completed or reverted, a transaction keeps the books. */
  lemma TrackKept(b: Book, op: Op, time: nat)
    requires Kept(b)
    ensures Kept(Track(b, op, time))
  {
    hide Kept, Execute;
    if Execute(b.pool, op, time).Done? {
      StepKeepsBooks(b, op, time);
    }
  }

  lemma ReceiveKeepsBooks(b: Book, value: nat)
    requires Kept(b)
    ensures Kept(b.(pool := b.pool.(balance := b.pool.balance + value)))
  {
  }

  lemma UpdateAnswers(p: Pool, i: nat, active: Result<bool, PoolError>, effectiveBalance: uint64, sent: bool, time: nat)
    requires UpdateStep(p, i, active, effectiveBalance, sent, time).Done?
    ensures active.Success?
    ensures !active.value ==>
      UpdateStep(p, i, active, effectiveBalance, sent, time) == ExitValidator(p, i, p.Entry(i).withdrawal, sent)
  {
  }

  // ----- when the errors stay zero -----

  function UnitError(e: Errors): nat {
    e.drift + e.misdated
  }

  lemma ZeroTerms(p: Pool, i: nat, time: nat)
    requires p.lastRebalance <= time
    ensures Misdating(p, i) == 0 <==> Settled(p, i)
    ensures Overcredit(p, i, time) == 0 <==> Punctual(p, i, time)
  {
    var v := p.Entry(i);
    ZeroProduct(v.start - p.lastRebalance, v.effectiveBalance);
    ZeroProduct(time - p.lastRebalance, v.effectiveBalance);
  }

  lemma ZeroProduct(a: int, b: nat)
    ensures a * b == 0 <==> a == 0 || b == 0
  {
  }

  /** Unit errors never shrink, and stay exactly when the transaction is fair. */
  lemma StepUnitError(b: Book, op: Op, time: nat)
    requires Kept(b) && Execute(b.pool, op, time).Done?
    ensures UnitError(Track(b, op, time).errors) >= UnitError(b.errors)
    ensures UnitError(Track(b, op, time).errors) == UnitError(b.errors) <==> Fair(b, op, time)
  {
    hide Books, AfterRebalance, Rebalance, Overcredit, Misdating, Shift, Settled, Punctual;
    if !op.Receive? {
      RebalanceKeepsBooks(b.pool, b.pending, b.errors, time);
      if op.Withdraw? || Renews(op) {
        ZeroTerms(Rebalance(b.pool, time).value, op.i, time);
      }
    }
  }

  lemma StepShift(b: Book, op: Op, time: nat)
    requires b.errors.shifted == 0 && Execute(b.pool, op, time).Done?
    ensures Track(b, op, time).errors.shifted == 0 <==> Timely(b, op, time)
  {
    hide AfterRebalance, Rebalance, Overcredit, Misdating;
  }

  /** All errors stay zero exactly when the transaction is careful. */
  lemma StepErrors(b: Book, op: Op, time: nat)
    requires Kept(b) && b.errors == NONE && Execute(b.pool, op, time).Done?
    ensures Track(b, op, time).errors == NONE <==> Careful(b, op, time)
  {
    hide Books, Execute, Track, Fair, Timely;
    StepUnitError(b, op, time);
    StepShift(b, op, time);
  }

  // ----- runs from deployment -----

  ghost function BookRun(time: nat, txs: seq<Tx>): Book {
    if txs == [] then Book(Deployed(time), {}, NONE)
    else Track(BookRun(time, txs[..|txs| - 1]), txs[|txs| - 1].op, txs[|txs| - 1].time)
  }

  lemma {:induction false} BookRunPool(time: nat, txs: seq<Tx>)
    ensures BookRun(time, txs).pool == Run(Deployed(time), txs)
  {
    if txs != [] {
      BookRunPool(time, txs[..|txs| - 1]);
    }
  }

  lemma BookRunStep(time: nat, txs: seq<Tx>, n: nat)
    requires n < |txs|
    ensures BookRun(time, txs[..n + 1]) == Track(BookRun(time, txs[..n]), txs[n].op, txs[n].time)
  {
    assert txs[..n + 1][..n] == txs[..n];
  }

  lemma DeployedKept(time: nat)
    requires time > 0
    ensures Kept(BookRun(time, []))
  {
    assert forall f: nat -> int :: Sum({}, f) == 0;
  }

  /** Ledger refinement: on every run the accumulators are the sums, up to the three tracked errors. */
  lemma {:induction false} RunKeepsBooks(time: nat, txs: seq<Tx>)
    requires time > 0
    ensures Kept(BookRun(time, txs))
  {
    hide Books, Execute, Kept;
    if txs == [] {
      DeployedKept(time);
    } else {
      var last := txs[|txs| - 1];
      RunKeepsBooks(time, txs[..|txs| - 1]);
      TrackKept(BookRun(time, txs[..|txs| - 1]), last.op, last.time);
    }
  }

  /** Transaction n, in the state it meets, reverts or satisfies the condition. */
  ghost predicate FairAt(time: nat, txs: seq<Tx>, n: nat)
    requires n < |txs|
  {
    var b := BookRun(time, txs[..n]);
    Execute(b.pool, txs[n].op, txs[n].time).Done? ==> Fair(b, txs[n].op, txs[n].time)
  }

  ghost predicate CarefulAt(time: nat, txs: seq<Tx>, n: nat)
    requires n < |txs|
  {
    var b := BookRun(time, txs[..n]);
    Execute(b.pool, txs[n].op, txs[n].time).Done? ==> Careful(b, txs[n].op, txs[n].time)
  }

  ghost predicate CarefulRun(time: nat, txs: seq<Tx>) {
    forall n: nat :: n < |txs| ==> CarefulAt(time, txs, n)
  }

  /** Without errors the books are exact, and only then. */
  lemma ErrorsShow(p: Pool, pending: set<nat>, e: Errors)
    requires Books(p, pending, e)
    ensures Books(p, pending, NONE) <==> e == NONE
  {
    hide AllPlaced, Sum, Late, Credit, EB;
  }

  /**
   The units are right: the settled ones are what the validators have earned, and the
   pending ones are what the pending validators will have earned, except for those of
   stake that is counted as active instead.
   */
  ghost predicate UnitsExact(p: Pool, pending: set<nat>) {
    p.smooths == Sum(p.validators.Keys, Credit(p.validators, p.lastRebalance, pending)) &&
    p.pendingSmooths == Sum(pending, Late(p.validators, p.lastRebalance))
                        - REBALANCE_PERIOD * (p.totalEB - Sum(p.validators.Keys - pending, EB(p.validators)))
  }

  lemma UnitErrorShows(p: Pool, pending: set<nat>, e: Errors)
    requires Books(p, pending, e)
    ensures UnitsExact(p, pending) <==> UnitError(e) == 0
  {
    hide Sum, Late, Credit, EB;
  }

  /** The units are exact after a run if and only if every transaction was fair. */
  lemma UnitsExactIff(time: nat, txs: seq<Tx>)
    requires time > 0
    ensures UnitsExact(BookRun(time, txs).pool, BookRun(time, txs).pending)
       <==> forall n: nat :: n < |txs| ==> FairAt(time, txs, n)
  {
    hide FairAt, UnitError, BookRun, UnitsExact;
    RunKeepsBooks(time, txs);
    var b := BookRun(time, txs);
    UnitErrorShows(b.pool, b.pending, b.errors);
    FairRun(time, txs, |txs|);
    assert txs[..|txs|] == txs;
  }

  lemma {:induction false} FairRun(time: nat, txs: seq<Tx>, n: nat)
    requires time > 0 && n <= |txs|
    ensures UnitError(BookRun(time, txs[..n]).errors) == 0 <==> forall k: nat :: k < n ==> FairAt(time, txs, k)
  {
    hide FairAt, UnitError, BookRun;
    if n == 0 {
      assert txs[..0] == [];
      NoErrorsYet(time);
    } else {
      FairRun(time, txs, n - 1);
      FairAtStep(time, txs, n - 1);
    }
  }

  lemma NoErrorsYet(time: nat)
    ensures UnitError(BookRun(time, []).errors) == 0
  {
  }

  lemma FairAtStep(time: nat, txs: seq<Tx>, n: nat)
    requires time > 0 && n < |txs|
    ensures
      var before, after := UnitError(BookRun(time, txs[..n]).errors), UnitError(BookRun(time, txs[..n + 1]).errors);
      before <= after && (before == after <==> FairAt(time, txs, n))
  {
    hide Track, Fair, Execute, Kept, UnitError;
    BookRunStep(time, txs, n);
    RunKeepsBooks(time, txs[..n]);
    FairStep(BookRun(time, txs[..n]), txs[n].op, txs[n].time);
  }

  lemma FairStep(b: Book, op: Op, time: nat)
    requires Kept(b)
    ensures UnitError(Track(b, op, time).errors) >= UnitError(b.errors)
    ensures UnitError(Track(b, op, time).errors) == UnitError(b.errors)
       <==> (Execute(b.pool, op, time).Done? ==> Fair(b, op, time))
  {
    hide Fair, Execute, Kept;
    if Execute(b.pool, op, time).Done? {
      StepUnitError(b, op, time);
    }
  }

  lemma {:induction false} CarefulPrefix(time: nat, txs: seq<Tx>, n: nat)
    requires time > 0 && n <= |txs|
    requires forall k: nat :: k < n ==> CarefulAt(time, txs, k)
    ensures BookRun(time, txs[..n]).errors == NONE
  {
    hide Careful, Execute, Kept;
    if n == 0 {
      assert txs[..0] == [];
    } else {
      CarefulPrefix(time, txs, n - 1);
      BookRunStep(time, txs, n - 1);
      RunKeepsBooks(time, txs[..n - 1]);
      assert CarefulAt(time, txs, n - 1);
      var b := BookRun(time, txs[..n - 1]);
      if Execute(b.pool, txs[n - 1].op, txs[n - 1].time).Done? {
        StepErrors(b, txs[n - 1].op, txs[n - 1].time);
      }
    }
  }

  /** The state after n transactions and its pending validators. */
  ghost predicate ExactAfter(time: nat, txs: seq<Tx>, n: nat)
    requires n <= |txs|
  {
    Books(BookRun(time, txs[..n]).pool, BookRun(time, txs[..n]).pending, NONE)
  }

  /** The accumulators are the exact sums throughout a run if and only if the run is careful. */
  lemma RunExactIff(time: nat, txs: seq<Tx>)
    requires time > 0
    ensures CarefulRun(time, txs) <==> forall n: nat :: n <= |txs| ==> ExactAfter(time, txs, n)
  {
    hide Track, Books, Careful, Execute;
    forall n: nat | n <= |txs|
      ensures ExactAfter(time, txs, n) <==> BookRun(time, txs[..n]).errors == NONE
    {
      RunKeepsBooks(time, txs[..n]);
      var b := BookRun(time, txs[..n]);
      ErrorsShow(b.pool, b.pending, b.errors);
    }
    if CarefulRun(time, txs) {
      forall n: nat | n <= |txs|
        ensures ExactAfter(time, txs, n)
      {
        CarefulPrefix(time, txs, n);
      }
    } else {
      var n: nat :| n < |txs| && !CarefulAt(time, txs, n);
      BookRunStep(time, txs, n);
      RunKeepsBooks(time, txs[..n]);
      var b := BookRun(time, txs[..n]);
      if b.errors == NONE {
        StepErrors(b, txs[n].op, txs[n].time);
        assert !ExactAfter(time, txs, n + 1);
      } else {
        assert !ExactAfter(time, txs, n);
      }
    }
  }
}
