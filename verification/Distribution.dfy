/** How the pool's ETH is shared out between two rebalances. */
module Distribution {
  import opened Bits
  import opened Arithmetic
  import opened Sums
  import opened Ledger
  import opened Accounting

  // ----- one payout -----

  /** The two roundings lose less than (E + BPS) / BPS wei, and never round up. */
  lemma PayoutBounds(share: nat, S: nat, E: nat)
    requires S > 0
    ensures S * Payout(share, S, E) <= share * E
    ensures BPS * (share * E - S * Payout(share, S, E)) < S * (E + BPS)
  {
    var q := share * BPS / S;
    var paid := q * E / BPS;
    DivMod(share * BPS, S);
    DivMod(q * E, BPS);
    var r, t := share * BPS % S, q * E % BPS;
    assert share * BPS == S * q + r && q * E == BPS * paid + t;
    ProductOfQuotients(share, S, E, q, r, paid, t);
  }

  lemma ProductOfQuotients(share: nat, S: nat, E: nat, q: nat, r: nat, paid: nat, t: nat)
    requires S > 0 && r < S && t < BPS
    requires share * BPS == S * q + r && q * E == BPS * paid + t
    ensures S * paid <= share * E
    ensures BPS * (share * E - S * paid) < S * (E + BPS)
  {
    assert BPS * (share * E) == S * (q * E) + r * E by {
      Associate(BPS, share, E);
      Distribute(E, S * q, r);
      Associate(S, q, E);
    }
    assert S * (q * E) == BPS * (S * paid) + S * t by {
      Distribute(S, BPS * paid, t);
      Associate(S, BPS, paid);
    }
    MulMonotone(E, r, S);
    MulStrict(S, t, BPS);
    Distribute(S, E, BPS);
    MulMonotone(E, 0, r);
    MulMonotone(S, 0, t);
  }

  /** Rounded down twice: first the share of 10^18 parts, then the ETH for these parts. */
  lemma PayoutExact(share: nat, S: nat, E: nat, parts: nat, paid: nat)
    requires S > 0
    requires S * parts <= share * 1_000_000_000_000_000_000 < S * (parts + 1)
    requires 1_000_000_000_000_000_000 * paid <= parts * E < 1_000_000_000_000_000_000 * (paid + 1)
    ensures Payout(share, S, E) == paid
  {
    DivUnique(share * BPS, S, parts, share * BPS - S * parts);
    DivUnique(parts * E, BPS, paid, parts * E - BPS * paid);
  }

  /** A larger share is never paid less. */
  lemma PayoutMonotone(share: nat, share': nat, S: nat, E: nat)
    requires S > 0 && share <= share'
    ensures Payout(share, S, E) <= Payout(share', S, E)
  {
    var a, b := share * BPS, share' * BPS;
    DivMonotone(a, b, S);
    ScaledMonotone(a / S, b / S, E);
  }

  lemma ScaledMonotone(q: nat, q': nat, E: nat)
    requires q <= q'
    ensures q * E / BPS <= q' * E / BPS
  {
    MulMonotone(E, q, q');
    DivMonotone(q * E, q' * E, BPS);
  }

  lemma DivMonotone(a: nat, b: nat, n: nat)
    requires n > 0 && a <= b
    ensures a / n <= b / n
  {
    DivMod(a, n);
    DivMod(b, n);
    if b / n < a / n {
      MulMonotone(n, b / n + 1, a / n);
    }
  }

  /** The last claimant, holding all units, is paid everything. */
  lemma PayoutAll(S: nat, E: nat)
    requires S > 0
    ensures Payout(S, S, E) == E
  {
    DivUnique(S * BPS, S, BPS, 0);
    DivUnique(BPS * E, BPS, E, 0);
  }

  /** What is left per unit after a payout is at least what there was. */
  lemma NoDilutionStep(share: nat, S: nat, E: nat)
    requires 0 < S && share <= S
    ensures Payout(share, S, E) <= E
    ensures (E - Payout(share, S, E)) * S >= E * (S - share)
  {
    PayoutBounded(share, S, E);
    PayoutBounds(share, S, E);
    var paid := Payout(share, S, E);
    assert (E - paid) * S == E * S - S * paid;
    assert E * (S - share) == E * S - share * E;
  }

  // ----- claims between two rebalances -----

  function Eth(p: Pool): int {
    p.balance - p.totalBond
  }

  /** A withdrawal submitted before the next rebalance is due. */
  predicate IsClaim(p: Pool, tx: Tx) {
    tx.op.Withdraw? && p.lastRebalance <= tx.time && !Fires(p, tx.time)
  }

  ghost predicate AllClaims(p: Pool, txs: seq<Tx>) {
    forall n :: 0 <= n < |txs| ==> IsClaim(p, txs[n])
  }

  /** A claim that completes moves its share out of the units and its payout out of the pool. */
  lemma ClaimEffect(p: Pool, tx: Tx)
    requires IsClaim(p, tx) && Execute(p, tx.op, tx.time).Done?
    ensures var v, q := p.Entry(tx.op.i), Next(p, tx.op, tx.time);
      && p.smooths > 0 && Eth(p) > 0 && 0 <= Claimable(p, v) <= p.smooths
      && q.smooths == p.smooths - Claimable(p, v)
      && Execute(p, tx.op, tx.time).payment == Pay(v.withdrawal, Payout(Claimable(p, v), p.smooths, Eth(p)))
      && Eth(q) == Eth(p) - Payout(Claimable(p, v), p.smooths, Eth(p))
      && q.balance <= p.balance
      && q.lastRebalance == p.lastRebalance
      && q.validators == p.validators[tx.op.i := v.(start := p.lastRebalance, smooths := 0)]
  {
    hide Payout, Claimable;
  }

  /** No dilution: no sequence of claims lowers the ETH behind each remaining unit. */
  lemma {:induction false} NoDilution(p: Pool, txs: seq<Tx>)
    requires AllClaims(p, txs) && p.smooths > 0 && Eth(p) >= 0
    ensures var q := Run(p, txs);
      && 0 <= Eth(q) <= Eth(p) && q.smooths <= p.smooths
      && q.lastRebalance == p.lastRebalance
      && Eth(q) * p.smooths >= Eth(p) * q.smooths
  {
    hide Payout, Claimable, Execute, Next;
    if txs != [] {
      var init, tx := txs[..|txs| - 1], txs[|txs| - 1];
      NoDilution(p, init);
      var q := Run(p, init);
      assert IsClaim(p, tx);
      NextOf(q, tx);
      if Execute(q, tx.op, tx.time).Done? {
        ClaimEffect(q, tx);
        var share: nat := Claimable(q, q.Entry(tx.op.i));
        var r := Run(p, txs);
        NoDilutionStep(share, q.smooths, Eth(q));
        RatioTransitive(Eth(p), p.smooths, Eth(q), q.smooths, Eth(r), r.smooths);
      }
    }
  }

  lemma NextOf(p: Pool, tx: Tx)
    ensures Execute(p, tx.op, tx.time).Reverted? ==> Next(p, tx.op, tx.time) == p
    ensures Execute(p, tx.op, tx.time).Done? ==> Next(p, tx.op, tx.time) == Execute(p, tx.op, tx.time).pool
  {
  }

  lemma RatioTransitive(E0: nat, S0: nat, E1: nat, S1: nat, E2: nat, S2: nat)
    requires S1 > 0 && E1 * S0 >= E0 * S1 && E2 * S1 >= E1 * S2
    ensures E2 * S0 >= E0 * S2
  {
    MulMonotone(S0, E1 * S2, E2 * S1);
    MulMonotone(S2, E0 * S1, E1 * S0);
    assert S0 * (E2 * S1) == S1 * (E2 * S0);
    assert S0 * (E1 * S2) == S2 * (E1 * S0);
    assert S2 * (E0 * S1) == S1 * (E0 * S2);
    if E2 * S0 < E0 * S2 {
      MulStrict(S1, E2 * S0, E0 * S2);
    }
  }

  /** A validator keeps its claim while others make theirs. */
  lemma {:induction false} ClaimKept(p: Pool, txs: seq<Tx>, i: nat)
    requires AllClaims(p, txs) && i !in Claimants(txs)
    ensures Run(p, txs).Entry(i) == p.Entry(i) && Run(p, txs).lastRebalance == p.lastRebalance
    ensures Claimable(Run(p, txs), Run(p, txs).Entry(i)) == Claimable(p, p.Entry(i))
  {
    hide Payout, Execute, Next;
    if txs != [] {
      var init, tx := txs[..|txs| - 1], txs[|txs| - 1];
      assert forall n :: 0 <= n < |init| ==> Claimant(init[n]) == Claimant(txs[n]);
      ClaimKept(p, init, i);
      var q := Run(p, init);
      assert IsClaim(p, tx) && Claimant(txs[|txs| - 1]) in Claimants(txs);
      NextOf(q, tx);
      if Execute(q, tx.op, tx.time).Done? {
        ClaimEffect(q, tx);
      }
    }
  }

  /**
   Order independence up to rounding: whoever else claims before, a claim worth `share`
   units at the start is paid more than share * E0 / S0 - E0 / BPS - 1.
   */
  lemma LaterClaimBound(p: Pool, txs: seq<Tx>, tx: Tx)
    requires AllClaims(p, txs) && IsClaim(p, tx) && p.smooths > 0 && Eth(p) >= 0
    requires tx.op.i !in Claimants(txs)
    requires Execute(Run(p, txs), tx.op, tx.time).Done?
    ensures var paid := Amount(Execute(Run(p, txs), tx.op, tx.time).payment);
      p.smooths * ((paid + 1) * BPS + Eth(p)) > BPS * Claimable(p, p.Entry(tx.op.i)) * Eth(p)
  {
    ClaimKept(p, txs, tx.op.i);
    RemainingClaimBound(p, txs, tx);
  }

  /** The same for a claim as it stands when it is made, also a repeated one. */
  lemma RemainingClaimBound(p: Pool, txs: seq<Tx>, tx: Tx)
    requires AllClaims(p, txs) && IsClaim(p, tx) && p.smooths > 0 && Eth(p) >= 0
    requires Execute(Run(p, txs), tx.op, tx.time).Done?
    ensures var q := Run(p, txs);
      var paid := Amount(Execute(q, tx.op, tx.time).payment);
      p.smooths * ((paid + 1) * BPS + Eth(p)) > BPS * Claimable(q, q.Entry(tx.op.i)) * Eth(p)
  {
    hide Payout, Claimable, Execute, Next, Run;
    NoDilution(p, txs);
    var q := Run(p, txs);
    assert IsClaim(q, tx);
    ClaimEffect(q, tx);
    var share: nat := Claimable(q, q.Entry(tx.op.i));
    PayoutBounds(share, q.smooths, Eth(q));
    BoundCarriesOver(Eth(p), p.smooths, Eth(q), q.smooths, share, Payout(share, q.smooths, Eth(q)));
  }

  lemma BoundCarriesOver(E0: nat, S0: nat, E: nat, S: nat, share: nat, paid: nat)
    requires S > 0 && S0 > 0 && E <= E0 && E * S0 >= E0 * S
    requires BPS * (share * E - S * paid) < S * (E + BPS)
    ensures S0 * ((paid + 1) * BPS + E0) > BPS * share * E0
  {
    var A := (paid + 1) * BPS + E;
    assert S * A > BPS * share * E by {
      assert S * A == BPS * (S * paid) + S * (E + BPS);
      assert BPS * share * E == BPS * (share * E);
    }
    MulStrict(S0, BPS * share * E, S * A);
    MulMonotone(BPS * share, E0 * S, E * S0);
    assert S0 * (BPS * share * E) == BPS * share * (E * S0);
    assert BPS * share * (E0 * S) == S * (BPS * share * E0);
    assert S0 * (S * A) == S * (S0 * A);
    Cancel(S, BPS * share * E0, S0 * A);
    MulMonotone(S0, A, A + (E0 - E));
  }

  lemma Cancel(n: nat, a: int, b: int)
    requires n > 0 && n * a < n * b
    ensures a < b
  {
    if a >= b {
      MulMonotone(n, b, a);
    }
  }

  // ----- draining the pool -----

  ghost function ClaimOf(p: Pool): nat -> int {
    (i: nat) => if i in p.validators then Claimable(p, p.validators[i]) else 0
  }

  function Claimant(tx: Tx): nat {
    if tx.op.Withdraw? then tx.op.i else 0
  }

  ghost function Claimants(txs: seq<Tx>): set<nat> {
    set n | 0 <= n < |txs| :: Claimant(txs[n])
  }

  ghost predicate DistinctClaimants(txs: seq<Tx>) {
    forall m, n :: 0 <= m < n < |txs| ==> Claimant(txs[m]) != Claimant(txs[n])
  }

  /** A claim that nothing outside the pool's own arithmetic can refuse. */
  predicate Undisputed(p: Pool, tx: Tx) {
    IsClaim(p, tx) && tx.op.sent && tx.op.verdict.Success? &&
    tx.op.i in p.validators && 0 < p.validators[tx.op.i].start <= tx.op.timestamp &&
    Claimable(p, p.validators[tx.op.i]) > 0
  }

  /** One undisputed claim each, by validators that together hold all the units. */
  ghost predicate Exhausts(p: Pool, txs: seq<Tx>) {
    (forall n :: 0 <= n < |txs| ==> Undisputed(p, txs[n])) &&
    DistinctClaimants(txs) &&
    p.smooths == Sum(Claimants(txs), ClaimOf(p))
  }

  /** Units and ETH small enough for the payout arithmetic. */
  predicate PayoutFits(p: Pool) {
    p.smooths * BPS < TWO_256 && p.balance * BPS < TWO_256
  }

  lemma UndisputedClaimCompletes(p: Pool, tx: Tx)
    requires Undisputed(p, tx) && PayoutFits(p) && Eth(p) > 0
    requires Claimable(p, p.validators[tx.op.i]) <= p.smooths
    ensures Execute(p, tx.op, tx.time).Done?
  {
    hide Payout, Claimable;
    var share: nat := Claimable(p, p.Entry(tx.op.i));
    MulMonotone(BPS, share, p.smooths);
    QuotientAtMost(share, p.smooths);
    MulBounds(share * BPS / p.smooths, Eth(p), BPS, p.balance);
    PayoutBounded(share, p.smooths, Eth(p));
  }

  lemma {:induction false} RunFirst(p: Pool, txs: seq<Tx>)
    requires txs != []
    ensures Run(p, txs) == Run(Next(p, txs[0].op, txs[0].time), txs[1..])
  {
    hide Next;
    var last := |txs| - 1;
    if last == 0 {
      assert txs[..0] == [] && txs[1..] == [];
    } else {
      RunFirst(p, txs[..last]);
      assert txs[..last][1..] == txs[1..][..last - 1];
    }
  }

  /** The rest of the claims after the first one completed. */
  lemma ExhaustsRest(p: Pool, txs: seq<Tx>)
    requires Exhausts(p, txs) && txs != [] && Execute(p, txs[0].op, txs[0].time).Done?
    ensures Exhausts(Next(p, txs[0].op, txs[0].time), txs[1..])
  {
    hide Next, Execute, Sum;
    var tx, rest := txs[0], txs[1..];
    var i := tx.op.i;
    ClaimEffect(p, tx);
    var q := Next(p, tx.op, tx.time);
    assert Undisputed(p, tx);
    forall n | 0 <= n < |rest|
      ensures Undisputed(q, rest[n])
    {
      assert Undisputed(p, txs[n + 1]) && Claimant(txs[0]) != Claimant(txs[n + 1]);
    }
    ClaimantsRest(txs);
    SumDelete(Claimants(txs), ClaimOf(p), ClaimOf(q), i);
  }

  lemma ClaimantsRest(txs: seq<Tx>)
    requires txs != [] && txs[0].op.Withdraw?
    requires DistinctClaimants(txs)
    ensures txs[0].op.i in Claimants(txs)
    ensures Claimants(txs[1..]) == Claimants(txs) - {txs[0].op.i}
  {
    var rest := txs[1..];
    forall i | i in Claimants(txs) - {txs[0].op.i}
      ensures i in Claimants(rest)
    {
      var n :| 0 <= n < |txs| && Claimant(txs[n]) == i;
      assert rest[n - 1] == txs[n];
    }
  }

  ghost predicate AllComplete(p: Pool, txs: seq<Tx>) {
    forall n: nat :: n < |txs| ==> Execute(Run(p, txs[..n]), txs[n].op, txs[n].time).Done?
  }

  ghost function TotalPaid(p: Pool, txs: seq<Tx>): nat {
    if txs == [] then 0
    else
      var init, tx := txs[..|txs| - 1], txs[|txs| - 1];
      TotalPaid(p, init) +
      (match Execute(Run(p, init), tx.op, tx.time) case Done(_, payment) => Amount(payment) case Reverted(_) => 0)
  }

  lemma {:induction false} PaidIsSpent(p: Pool, txs: seq<Tx>)
    requires AllClaims(p, txs) && p.smooths > 0 && Eth(p) >= 0
    ensures TotalPaid(p, txs) == Eth(p) - Eth(Run(p, txs))
  {
    hide Payout, Claimable, Execute, Next;
    if txs != [] {
      var init, tx := txs[..|txs| - 1], txs[|txs| - 1];
      PaidIsSpent(p, init);
      NoDilution(p, init);
      var q := Run(p, init);
      assert IsClaim(p, tx);
      NextOf(q, tx);
      if Execute(q, tx.op, tx.time).Done? {
        ClaimEffect(q, tx);
      }
    }
  }

  /** A positive claim completes, and leaves ETH behind as long as it leaves units behind. */
  lemma FirstClaim(p: Pool, txs: seq<Tx>)
    requires Exhausts(p, txs) && txs != [] && PayoutFits(p) && Eth(p) > 0
    ensures Execute(p, txs[0].op, txs[0].time).Done?
    ensures var q := Next(p, txs[0].op, txs[0].time);
      && PayoutFits(q) && Eth(q) >= 0
      && (q.smooths > 0 ==> Eth(q) > 0)
      && (q.smooths == 0 ==> Eth(q) == 0)
  {
    hide Execute, Next, Payout, Claimable, Sum;
    var tx := txs[0];
    var q := Next(p, tx.op, tx.time);
    assert Undisputed(p, tx);
    assert tx.op.i in Claimants(txs);
    ClaimsNonNegative(p, txs);
    SumMember(Claimants(txs), ClaimOf(p), tx.op.i);
    UndisputedClaimCompletes(p, tx);
    ClaimEffect(p, tx);
    var share: nat := Claimable(p, p.Entry(tx.op.i));
    NoDilutionStep(share, p.smooths, Eth(p));
    MulMonotone(BPS, q.smooths, p.smooths);
    MulMonotone(BPS, q.balance, p.balance);
    if q.smooths > 0 {
      MulStrict(Eth(p), 0, q.smooths);
      Cancel(p.smooths, 0, Eth(q));
    } else {
      PayoutAll(p.smooths, Eth(p));
    }
  }

  lemma ClaimsNonNegative(p: Pool, txs: seq<Tx>)
    requires Exhausts(p, txs)
    ensures forall i :: i in Claimants(txs) ==> 0 <= ClaimOf(p)(i)
  {
    forall i | i in Claimants(txs)
      ensures 0 <= ClaimOf(p)(i)
    {
      var n :| 0 <= n < |txs| && Claimant(txs[n]) == i;
      assert Undisputed(p, txs[n]);
    }
  }

  /** Exact drain: in whatever order, every claim completes, and together they are paid all of the ETH. */
  lemma ExactDrain(p: Pool, txs: seq<Tx>)
    requires Exhausts(p, txs) && txs != [] && PayoutFits(p) && Eth(p) > 0
    ensures AllComplete(p, txs) && TotalPaid(p, txs) == Eth(p)
    ensures Run(p, txs).smooths == 0 && Eth(Run(p, txs)) == 0
  {
    hide Execute, Sum, Run, PayoutFits, Exhausts;
    RestHasUnits(p, txs);
    Drains(p, txs);
    assert AllClaims(p, txs) by { ExhaustingClaims(p, txs); }
    PaidIsSpent(p, txs);
  }

  lemma ExhaustingClaims(p: Pool, txs: seq<Tx>)
    requires Exhausts(p, txs)
    ensures AllClaims(p, txs)
  {
    forall n | 0 <= n < |txs|
      ensures IsClaim(p, txs[n])
    {
      assert Undisputed(p, txs[n]);
    }
  }

  lemma {:induction false} Drains(p: Pool, txs: seq<Tx>)
    requires Exhausts(p, txs) && txs != [] && PayoutFits(p) && Eth(p) > 0
    ensures AllComplete(p, txs)
    ensures Run(p, txs).smooths == 0 && Eth(Run(p, txs)) == 0
    decreases |txs|
  {
    hide Execute, Next, Sum, Run, PayoutFits;
    var tx, rest := txs[0], txs[1..];
    FirstClaim(p, txs);
    ExhaustsRest(p, txs);
    var q := Next(p, tx.op, tx.time);
    RunFirst(p, txs);
    if rest == [] {
      RunNothing(q);
      RunNothing(p);
      NoClaimants(q);
    } else {
      RestHasUnits(q, rest);
      Drains(q, rest);
    }
    forall n: nat | n < |txs|
      ensures Execute(Run(p, txs[..n]), txs[n].op, txs[n].time).Done?
    {
      if n == 0 {
        RunNothing(p);
        assert txs[..0] == [];
      } else {
        RunFirst(p, txs[..n]);
        assert txs[..n][1..] == rest[..n - 1];
        var m: nat := n - 1;
        assert Execute(Run(q, rest[..m]), rest[m].op, rest[m].time).Done?;
      }
    }
  }

  lemma RunNothing(p: Pool)
    ensures Run(p, []) == p
  {
  }

  lemma NoClaimants(p: Pool)
    requires Exhausts(p, [])
    ensures p.smooths == 0
  {
    assert Claimants([]) == {};
  }

  lemma RestHasUnits(p: Pool, txs: seq<Tx>)
    requires Exhausts(p, txs) && txs != []
    ensures p.smooths > 0
  {
    hide Claimable, Sum;
    assert Undisputed(p, txs[0]) && txs[0].op.i in Claimants(txs);
    ClaimsNonNegative(p, txs);
    SumMember(Claimants(txs), ClaimOf(p), txs[0].op.i);
  }

  /**
   While the books do not drift, the claims of all validators with something to claim
   exhaust the units, so together they are paid all of the pool's distributable ETH.
   */
  lemma BooksExhausted(p: Pool, pending: set<nat>, e: Errors, txs: seq<Tx>)
    requires Books(p, pending, e) && e.drift == 0 && PayoutFits(p) && Eth(p) > 0 && txs != []
    requires forall n :: 0 <= n < |txs| ==> Undisputed(p, txs[n])
    requires DistinctClaimants(txs)
    requires forall i :: i in p.validators && Claimable(p, p.validators[i]) > 0 ==> i in Claimants(txs)
    ensures AllComplete(p, txs) && TotalPaid(p, txs) == Eth(p)
    ensures Run(p, txs).smooths == 0 && Eth(Run(p, txs)) == 0
  {
    hide Execute, Sum, Run, Books, ClaimOf, PayoutFits;
    UnitsAreClaims(p, pending, e, txs);
    RestHasUnits(p, txs);
    ExactDrain(p, txs);
    forall n | 0 <= n < |txs|
      ensures IsClaim(p, txs[n])
    {
      assert Undisputed(p, txs[n]);
    }
    PaidIsSpent(p, txs);
  }

  lemma UnitsAreClaims(p: Pool, pending: set<nat>, e: Errors, txs: seq<Tx>)
    requires Books(p, pending, e) && e.drift == 0
    requires forall n :: 0 <= n < |txs| ==> Undisputed(p, txs[n])
    requires forall i :: i in p.validators && Claimable(p, p.validators[i]) > 0 ==> i in Claimants(txs)
    ensures p.smooths == Sum(Claimants(txs), ClaimOf(p))
  {
    hide Sum, Claimable, CreditUnits, Credit;
    var vs := p.validators;
    forall i | i in vs
      ensures Credit(vs, p.lastRebalance, pending)(i) == ClaimOf(p)(i) >= 0
    {
      CreditIsClaim(p, pending, i);
    }
    SumCongruent(vs.Keys, Credit(vs, p.lastRebalance, pending), ClaimOf(p));
    forall i | i in Claimants(txs)
      ensures i in vs.Keys
    {
      var n :| 0 <= n < |txs| && Claimant(txs[n]) == i;
      assert Undisputed(p, txs[n]);
    }
    SumSupport(vs.Keys, Claimants(txs), ClaimOf(p));
  }

  lemma CreditIsClaim(p: Pool, pending: set<nat>, i: nat)
    requires AllPlaced(p, pending) && i in p.validators
    ensures Credit(p.validators, p.lastRebalance, pending)(i) == ClaimOf(p)(i)
    ensures ClaimOf(p)(i) >= 0
  {
    ClaimIsCredit(p, pending, i);
    if i !in pending {
      assert Placed(p.validators[i], false, p.lastRebalance);
      MulMonotone(p.validators[i].effectiveBalance, 0, p.lastRebalance - p.validators[i].start);
    }
  }
}
