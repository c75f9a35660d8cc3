/**
 The slow bookkeeping the pool's four accumulators stand in for: a sum over every
 validator. Each validator is pending from its registration or update until the next
 rebalance, and active afterwards; that bit is kept here only for the proofs.
 */
module Accounting {
  import opened Bits
  import opened Sums
  import opened Wrappers
  import opened Ledger
  import BeaconOracle

  type Validators = map<nat, Validator>

  ghost function EB(vs: Validators): nat -> int {
    (i: nat) => if i in vs then vs[i].effectiveBalance as int else 0
  }

  /** Units a pending validator earns from its start to the end of the first period. */
  function LateUnits(v: Validator, last: nat): int {
    v.effectiveBalance * (REBALANCE_PERIOD - (v.start - last))
  }

  ghost function Late(vs: Validators, last: nat): nat -> int {
    (i: nat) => if i in vs then LateUnits(vs[i], last) else 0
  }

  /** Units a validator can claim as of the last rebalance. */
  function CreditUnits(v: Validator, last: nat, isPending: bool): int {
    if isPending then v.smooths else (last - v.start) * v.effectiveBalance + v.smooths
  }

  ghost function Credit(vs: Validators, last: nat, pending: set<nat>): nat -> int {
    (i: nat) => if i in vs then CreditUnits(vs[i], last, i in pending) else 0
  }

  predicate Placed(v: Validator, isPending: bool, last: nat) {
    v.start > 0 && if isPending then last <= v.start <= last + REBALANCE_PERIOD else v.start <= last
  }

  ghost predicate AllPlaced(p: Pool, pending: set<nat>) {
    p.lastRebalance > 0 && pending <= p.validators.Keys &&
    forall i :: i in p.validators ==> Placed(p.validators[i], i in pending, p.lastRebalance)
  }

  /**
   How far the accumulators are off, in three ways: units an update credited before the
   pool had counted them; stake of validators that left between a withdrawal and the
   next rebalance, taken out of the pending total instead of the active one; and units
   by which withdrawals of fresh registrants moved their start back.
   */
  datatype Errors = Errors(drift: nat, shifted: nat, misdated: nat)

  const NONE: Errors := Errors(0, 0, 0)

  /** The accumulators are the sums over all validators, up to the errors. */
  ghost predicate Books(p: Pool, pending: set<nat>, e: Errors) {
    AllPlaced(p, pending) && Balanced(p, pending, e)
  }

  ghost predicate Balanced(p: Pool, pending: set<nat>, e: Errors) {
    p.totalEB == Sum(p.validators.Keys - pending, EB(p.validators)) + e.shifted &&
    p.pendingEB + e.shifted == Sum(pending, EB(p.validators)) &&
    p.pendingSmooths + REBALANCE_PERIOD * e.shifted + e.misdated == Sum(pending, Late(p.validators, p.lastRebalance)) &&
    p.smooths + e.drift == Sum(p.validators.Keys, Credit(p.validators, p.lastRebalance, pending))
  }

  // ----- how the four sums move -----

  lemma SumsInsert(vs: Validators, i: nat, v: Validator, last: nat, pending: set<nat>)
    requires i !in vs && pending <= vs.Keys
    ensures var ws := vs[i := v];
      && ws.Keys - (pending + {i}) == vs.Keys - pending
      && Sum(vs.Keys - pending, EB(ws)) == Sum(vs.Keys - pending, EB(vs))
      && Sum(pending + {i}, EB(ws)) == Sum(pending, EB(vs)) + v.effectiveBalance
      && Sum(pending + {i}, Late(ws, last)) == Sum(pending, Late(vs, last)) + LateUnits(v, last)
      && Sum(ws.Keys, Credit(ws, last, pending + {i})) == Sum(vs.Keys, Credit(vs, last, pending)) + v.smooths
  {
    hide Sum, LateUnits;
    var ws := vs[i := v];
    assert ws.Keys == vs.Keys + {i};
    SumCongruent(vs.Keys - pending, EB(vs), EB(ws));
    SumInsert(pending, EB(vs), EB(ws), i);
    SumInsert(pending, Late(vs, last), Late(ws, last), i);
    SumInsert(vs.Keys, Credit(vs, last, pending), Credit(ws, last, pending + {i}), i);
  }

  /** A record changes in place, without moving between active and pending. */
  lemma SumsChange(vs: Validators, i: nat, v: Validator, last: nat, pending: set<nat>)
    requires i in vs && pending <= vs.Keys && v.effectiveBalance == vs[i].effectiveBalance
    ensures var ws := vs[i := v];
      && ws.Keys == vs.Keys
      && Sum(vs.Keys - pending, EB(ws)) == Sum(vs.Keys - pending, EB(vs))
      && Sum(pending, EB(ws)) == Sum(pending, EB(vs))
      && Sum(pending, Late(ws, last)) == Sum(pending, Late(vs, last))
           + (if i in pending then LateUnits(v, last) - LateUnits(vs[i], last) else 0)
      && Sum(vs.Keys, Credit(ws, last, pending)) == Sum(vs.Keys, Credit(vs, last, pending))
           + CreditUnits(v, last, i in pending) - CreditUnits(vs[i], last, i in pending)
  {
    hide Sum, LateUnits, CreditUnits;
    var ws := vs[i := v];
    SumCongruent(vs.Keys - pending, EB(vs), EB(ws));
    SumCongruent(pending, EB(vs), EB(ws));
    if i in pending {
      SumChange(pending, Late(vs, last), Late(ws, last), i);
    } else {
      SumCongruent(pending, Late(vs, last), Late(ws, last));
    }
    SumChange(vs.Keys, Credit(vs, last, pending), Credit(ws, last, pending), i);
  }

  /** An active record is replaced by a pending one. */
  lemma SumsReenter(vs: Validators, i: nat, v: Validator, last: nat, pending: set<nat>)
    requires i in vs && i !in pending && pending <= vs.Keys
    ensures var ws := vs[i := v];
      && ws.Keys == vs.Keys
      && Sum(ws.Keys - (pending + {i}), EB(ws)) == Sum(vs.Keys - pending, EB(vs)) - vs[i].effectiveBalance
      && Sum(pending + {i}, EB(ws)) == Sum(pending, EB(vs)) + v.effectiveBalance
      && Sum(pending + {i}, Late(ws, last)) == Sum(pending, Late(vs, last)) + LateUnits(v, last)
      && Sum(vs.Keys, Credit(ws, last, pending + {i})) == Sum(vs.Keys, Credit(vs, last, pending))
           + v.smooths - CreditUnits(vs[i], last, false)
  {
    hide Sum, LateUnits;
    var ws := vs[i := v];
    assert ws.Keys - (pending + {i}) == vs.Keys - pending - {i};
    SumDelete(vs.Keys - pending, EB(vs), EB(ws), i);
    SumInsert(pending, EB(vs), EB(ws), i);
    SumInsert(pending, Late(vs, last), Late(ws, last), i);
    SumChange(vs.Keys, Credit(vs, last, pending), Credit(ws, last, pending + {i}), i);
  }

  lemma SumsDelete(vs: Validators, i: nat, last: nat, pending: set<nat>)
    requires i in vs && pending <= vs.Keys
    ensures var ws := vs - {i};
      && ws.Keys == vs.Keys - {i}
      && Sum(ws.Keys - (pending - {i}), EB(ws)) == Sum(vs.Keys - pending, EB(vs))
           - (if i in pending then 0 else vs[i].effectiveBalance)
      && Sum(pending - {i}, EB(ws)) == Sum(pending, EB(vs)) - (if i in pending then vs[i].effectiveBalance else 0)
      && Sum(pending - {i}, Late(ws, last)) == Sum(pending, Late(vs, last))
           - (if i in pending then LateUnits(vs[i], last) else 0)
      && Sum(ws.Keys, Credit(ws, last, pending - {i})) == Sum(vs.Keys, Credit(vs, last, pending))
           - CreditUnits(vs[i], last, i in pending)
  {
    hide Sum, LateUnits, CreditUnits;
    var ws := vs - {i};
    assert ws.Keys == vs.Keys - {i};
    SumDelete(vs.Keys, Credit(vs, last, pending), Credit(ws, last, pending - {i}), i);
    if i in pending {
      PendingDelete(vs, i, last, pending);
    } else {
      ActiveDelete(vs, i, last, pending);
    }
  }

  lemma PendingDelete(vs: Validators, i: nat, last: nat, pending: set<nat>)
    requires i in pending && pending <= vs.Keys
    ensures var ws := vs - {i};
      && Sum(ws.Keys - (pending - {i}), EB(ws)) == Sum(vs.Keys - pending, EB(vs))
      && Sum(pending - {i}, EB(ws)) == Sum(pending, EB(vs)) - vs[i].effectiveBalance
      && Sum(pending - {i}, Late(ws, last)) == Sum(pending, Late(vs, last)) - LateUnits(vs[i], last)
  {
    hide Sum, LateUnits;
    var ws := vs - {i};
    assert ws.Keys - (pending - {i}) == vs.Keys - pending;
    SumCongruent(vs.Keys - pending, EB(vs), EB(ws));
    SumDelete(pending, EB(vs), EB(ws), i);
    SumDelete(pending, Late(vs, last), Late(ws, last), i);
  }

  lemma ActiveDelete(vs: Validators, i: nat, last: nat, pending: set<nat>)
    requires i in vs && i !in pending && pending <= vs.Keys
    ensures pending - {i} == pending
    ensures var ws := vs - {i};
      && Sum(ws.Keys - pending, EB(ws)) == Sum(vs.Keys - pending, EB(vs)) - vs[i].effectiveBalance
      && Sum(pending, EB(ws)) == Sum(pending, EB(vs))
      && Sum(pending, Late(ws, last)) == Sum(pending, Late(vs, last))
  {
    hide Sum, LateUnits;
    var ws := vs - {i};
    assert ws.Keys - pending == vs.Keys - pending - {i};
    SumDelete(vs.Keys - pending, EB(vs), EB(ws), i);
    SumCongruent(pending, EB(vs), EB(ws));
    SumCongruent(pending, Late(vs, last), Late(ws, last));
  }

  // ----- rebalancing -----

  /** One rebalance in constant time accrues what each validator earned on its own. */
  lemma RebalanceSums(p: Pool, pending: set<nat>, e: Errors, time: nat)
    requires Books(p, pending, e) && Fires(p, time)
    ensures Sum(p.validators.Keys, EB(p.validators)) == p.totalEB + p.pendingEB
    ensures Sum(p.validators.Keys, Credit(p.validators, time, {}))
         == p.smooths + p.totalEB * (time - p.lastRebalance) + p.pendingEB * (time - p.lastRebalance - REBALANCE_PERIOD)
            + p.pendingSmooths + (e.drift + e.misdated)
  {
    hide Sum;
    SumsAccrue(p.validators, p.lastRebalance, time, pending);
    var A, B := p.totalEB - e.shifted, p.pendingEB + e.shifted;
    var elapsed := time - p.lastRebalance;
    ShiftCancels(A, B, e.shifted, elapsed);
  }

  /** Stake on the wrong side of the split accrues the same in total. */
  lemma ShiftCancels(A: int, B: int, shifted: nat, elapsed: int)
    ensures (A + shifted) * elapsed + (B - shifted) * (elapsed - REBALANCE_PERIOD)
         == A * elapsed + B * (elapsed - REBALANCE_PERIOD) + shifted * REBALANCE_PERIOD
  {
    assert (A + shifted) * elapsed == A * elapsed + shifted * elapsed;
    assert (B - shifted) * (elapsed - REBALANCE_PERIOD)
        == B * (elapsed - REBALANCE_PERIOD) - shifted * elapsed + shifted * REBALANCE_PERIOD;
  }

  lemma SumsAccrue(vs: Validators, last: nat, time: nat, pending: set<nat>)
    requires pending <= vs.Keys && time >= last
    ensures Sum(vs.Keys, EB(vs)) == Sum(vs.Keys - pending, EB(vs)) + Sum(pending, EB(vs))
    ensures Sum(vs.Keys, Credit(vs, time, {})) == Sum(vs.Keys, Credit(vs, last, pending))
        + Sum(vs.Keys - pending, EB(vs)) * (time - last)
        + Sum(pending, EB(vs)) * (time - last - REBALANCE_PERIOD) + Sum(pending, Late(vs, last))
  {
    hide Sum, LateUnits, CreditUnits;
    var active, elapsed := vs.Keys - pending, time - last;
    var before, after := Credit(vs, last, pending), Credit(vs, time, {});
    assert active + pending == vs.Keys;
    SumUnion(active, pending, EB(vs));
    SumUnion(active, pending, before);
    SumUnion(active, pending, after);
    forall i | i in active
      ensures after(i) == before(i) + elapsed * EB(vs)(i)
    {
      ActiveAccrues(vs[i], last, time);
    }
    SumLinear(active, after, before, EB(vs), elapsed);
    PendingSumsAccrue(vs, last, time, pending);
  }

  lemma PendingSumsAccrue(vs: Validators, last: nat, time: nat, pending: set<nat>)
    requires pending <= vs.Keys && time >= last
    ensures Sum(pending, Credit(vs, time, {})) == Sum(pending, Credit(vs, last, pending))
        + (time - last - REBALANCE_PERIOD) * Sum(pending, EB(vs)) + Sum(pending, Late(vs, last))
  {
    hide Sum, LateUnits, CreditUnits;
    var before, after := Credit(vs, last, pending), Credit(vs, time, {});
    var entered: nat -> int := (i: nat) => before(i) + 1 * Late(vs, last)(i);
    forall i | i in pending
      ensures after(i) == entered(i) + (time - last - REBALANCE_PERIOD) * EB(vs)(i)
    {
      PendingAccrues(vs[i], last, time);
    }
    SumLinear(pending, after, entered, EB(vs), time - last - REBALANCE_PERIOD);
    SumLinear(pending, entered, before, Late(vs, last), 1);
  }

  lemma ActiveAccrues(v: Validator, last: nat, time: nat)
    ensures CreditUnits(v, time, false) == CreditUnits(v, last, false) + (time - last) * v.effectiveBalance
  {
    assert (time - v.start) * v.effectiveBalance
        == (last - v.start) * v.effectiveBalance + (time - last) * v.effectiveBalance;
  }

  lemma PendingAccrues(v: Validator, last: nat, time: nat)
    ensures CreditUnits(v, time, false)
         == CreditUnits(v, last, true) + LateUnits(v, last) + (time - last - REBALANCE_PERIOD) * v.effectiveBalance
  {
    var a, b := REBALANCE_PERIOD - (v.start - last), time - last - REBALANCE_PERIOD;
    assert (a + b) * v.effectiveBalance == v.effectiveBalance * a + b * v.effectiveBalance;
    assert time - v.start == a + b;
  }

  lemma EmptySums(f: nat -> int, g: nat -> int)
    ensures Sum({}, f) == 0 && Sum({}, g) == 0
  {
  }

  /** After a rebalance that fires everyone is active; otherwise nothing moved. */
  ghost function PendingAfter(p: Pool, pending: set<nat>, time: nat): set<nat> {
    if Fires(p, time) then {} else pending
  }

  /** A rebalance that fires resets the split and folds misdated units into the drift. */
  function ErrorsAfter(p: Pool, e: Errors, time: nat): Errors {
    if Fires(p, time) then Errors(e.drift + e.misdated, 0, 0) else e
  }

  lemma RebalanceKeepsBooks(p: Pool, pending: set<nat>, e: Errors, time: nat)
    requires Books(p, pending, e) && Rebalance(p, time).Some?
    ensures Books(Rebalance(p, time).value, PendingAfter(p, pending, time), ErrorsAfter(p, e, time))
    ensures Rebalance(p, time).value.lastRebalance <= time <= Rebalance(p, time).value.lastRebalance + REBALANCE_PERIOD
  {
    hide Sum, CreditUnits, LateUnits;
    if Fires(p, time) {
      RebalanceSums(p, pending, e, time);
      var q := Rebalance(p, time).value;
      assert q.validators.Keys - {} == q.validators.Keys;
      EmptySums(EB(q.validators), Late(q.validators, time));
    }
  }

  // ----- the transactions after their rebalance -----

  lemma RegisterKeepsBooks(p: Pool, pending: set<nat>, e: Errors, i: nat, value: nat,
                           claim: Result<Entrant, PoolError>, time: nat)
    requires Books(p, pending, e) && RegisterStep(p, i, value, claim, time).Done?
    ensures Books(RegisterStep(p, i, value, claim, time).pool, pending + {i}, e)
  {
    hide Sum, EB, Late, Credit;
    var q := RegisterStep(p, i, value, claim, time).pool;
    assert i !in p.validators;
    assert AllPlaced(q, pending + {i}) by {
      hide Balanced;
    }
    assert Balanced(q, pending + {i}, e) by {
      SumsInsert(p.validators, i, q.validators[i], p.lastRebalance, pending);
    }
  }

  /** Units by which a withdrawal moves the start of its validator back. */
  function Misdating(p: Pool, i: nat): nat {
    var v := p.Entry(i);
    if v.start > p.lastRebalance then (v.start - p.lastRebalance) * v.effectiveBalance else 0
  }

  lemma WithdrawKeepsBooks(p: Pool, pending: set<nat>, e: Errors, i: nat, timestamp: nat,
                           verdict: Result<bool, PoolError>, sent: bool)
    requires Books(p, pending, e) && WithdrawStep(p, i, timestamp, verdict, sent).Done?
    ensures Books(WithdrawStep(p, i, timestamp, verdict, sent).pool, pending,
                  e.(misdated := e.misdated + Misdating(p, i)))
  {
    hide Sum, EB, Late, Credit, ClaimResult, LateUnits, CreditUnits;
    var q := WithdrawStep(p, i, timestamp, verdict, sent).pool;
    var v, w := p.validators[i], q.validators[i];
    assert AllPlaced(q, pending) by {
      hide Balanced;
    }
    SumsChange(p.validators, i, w, p.lastRebalance, pending);
    ClaimIsCredit(p, pending, i);
    NothingLeft(w, p.lastRebalance, i in pending);
    assert Placed(v, i in pending, p.lastRebalance);
    LateDifference(v, w, p.lastRebalance);
  }

  lemma NothingLeft(w: Validator, last: nat, isPending: bool)
    requires w.start == last && w.smooths == 0
    ensures CreditUnits(w, last, isPending) == 0
  {
  }

  lemma ClaimIsCredit(p: Pool, pending: set<nat>, i: nat)
    requires AllPlaced(p, pending) && i in p.validators
    ensures Claimable(p, p.Entry(i)) == CreditUnits(p.validators[i], p.lastRebalance, i in pending)
  {
  }

  lemma LateDifference(v: Validator, w: Validator, last: nat)
    requires w.effectiveBalance == v.effectiveBalance && w.start == last
    ensures LateUnits(w, last) - LateUnits(v, last) == (v.start - last) * v.effectiveBalance
  {
    assert v.effectiveBalance * (REBALANCE_PERIOD - (v.start - last))
        == v.effectiveBalance * REBALANCE_PERIOD - v.effectiveBalance * (v.start - last);
  }

  /** Time an update credits beyond the last rebalance. */
  function Overcredit(p: Pool, i: nat, time: nat): nat {
    if time < p.lastRebalance then 0 else (time - p.lastRebalance) * p.Entry(i).effectiveBalance
  }

  /** An update makes its validator pending again. */
  lemma UpdateKeepsBooks(p: Pool, pending: set<nat>, e: Errors, i: nat, active: Result<bool, PoolError>,
                         effectiveBalance: uint64, sent: bool, time: nat)
    requires Books(p, pending, e) && UpdateStep(p, i, active, effectiveBalance, sent, time).Done? && active.value
    requires p.lastRebalance <= time
    ensures Books(UpdateStep(p, i, active, effectiveBalance, sent, time).pool, pending + {i},
                  e.(drift := e.drift + Overcredit(p, i, time)))
  {
    hide Sum, EB, Late, Credit;
    var q := UpdateStep(p, i, active, effectiveBalance, sent, time).pool;
    var v, w := p.validators[i], q.validators[i];
    assert AllPlaced(q, pending + {i}) by {
      hide Balanced;
    }
    assert Balanced(q, pending + {i}, e.(drift := e.drift + Overcredit(p, i, time))) by {
      SumsReenter(p.validators, i, w, p.lastRebalance, pending);
      assert CreditUnits(v, time, false) == w.smooths;
      hide CreditUnits;
      ActiveAccrues(v, p.lastRebalance, time);
    }
  }

  /** Stake of an active validator whose exit is booked as a pending one's. */
  function Shift(p: Pool, pending: set<nat>, i: nat): nat {
    var v := p.Entry(i);
    if i !in pending && v.start >= p.lastRebalance then v.effectiveBalance else 0
  }

  lemma ExitKeepsBooks(p: Pool, pending: set<nat>, e: Errors, i: nat, to: BeaconOracle.Address, sent: bool)
    requires Books(p, pending, e) && ExitValidator(p, i, to, sent).Done?
    ensures Books(ExitValidator(p, i, to, sent).pool, pending - {i}, e.(shifted := e.shifted + Shift(p, pending, i)))
  {
    hide Sum, EB, Late, Credit;
    var q := ExitValidator(p, i, to, sent).pool;
    assert AllPlaced(q, pending - {i}) by {
      hide Balanced;
    }
    if i in p.validators {
      assert Placed(p.validators[i], i in pending, p.lastRebalance);
      SumsDelete(p.validators, i, p.lastRebalance, pending);
    } else {
      assert q.validators == p.validators && pending - {i} == pending;
    }
  }
}
