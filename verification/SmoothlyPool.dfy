/**
 The pool contract with its storage updated in place. Each transaction is proved to be
 one step of the ledger: a revert rolls the storage back to what it was on entry. What
 the chain supplies is passed in: the block time, the EIP-4788 block root (None when
 the lookup fails), the transient words that earlier calls of the transaction left, and
 whether the recipient of an ETH transfer accepts it.

 The class invariant is that the pool is solvent and that its accumulators are the sums
 over all validators, up to the errors that `book` keeps for the proofs.
 */
module SmoothlyPool {
  import opened Bits
  import opened BitTricks
  import opened Wrappers
  import opened MerkleTree
  import opened BeaconOracle
  import opened Multiproof
  import opened Ledger
  import opened Runs
  import opened Transactions
  import opened SSZ
  import A = Arrays

  type Word = A.Word

  /** The effective balance as the ledger counts it. */
  function Stake(v: BeaconChainValidator): uint64 {
    v.effectiveBalance as nat
  }

  function Key(validatorIndex: bv64): uint64 {
    validatorIndex as nat
  }

  function Lift(r: Result<bool, OracleError>): Result<bool, PoolError> {
    match r
    case Success(b) => Success(b)
    case Failure(e) => Failure(Oracle(e))
  }

  /** What registration checks about the submitted record, in the order of the checks. */
  function RegisterClaim(H: HashFn, proof: seq<Word>, v: BeaconChainValidator, i: nat,
                         blockRoot: Option<Word>, time: nat): Result<Entrant, PoolError>
  {
    if ZERO_VALIDATOR_INDEX + i >= TWO_64 then Failure(Panic)
    else
      match WithdrawalToAddress(v.withdrawalCredentials)
      case Failure(e) => Failure(Oracle(e))
      case Success(withdrawal) =>
        match IsActiveValidator(v, time)
        case None => Failure(Panic)
        case Some(active) =>
          if !active then Failure(InactiveValidator)
          else
            match ValidatorVerdict(H, proof, v, ZERO_VALIDATOR_INDEX + i, blockRoot)
            case Failure(e) => Failure(Oracle(e))
            case Success(_) => Success(Entrant(Stake(v), withdrawal))
  }

  /** What an update learns from the submitted record: whether it is still active. */
  function UpdateCheck(H: HashFn, proof: seq<Word>, v: BeaconChainValidator, i: nat,
                       blockRoot: Option<Word>, time: nat): Result<bool, PoolError>
  {
    if ZERO_VALIDATOR_INDEX + i >= TWO_64 then Failure(Panic)
    else
      match ValidatorVerdict(H, proof, v, ZERO_VALIDATOR_INDEX + i, blockRoot)
      case Failure(e) => Failure(Oracle(e))
      case Success(_) =>
        match IsActiveValidator(v, time)
        case None => Failure(Panic)
        case Some(active) => Success(active)
  }

  lemma KeyIs(validatorIndex: bv64)
    ensures Key(validatorIndex) == validatorIndex as nat
  {
  }

  /**
   A registering record passes exactly with an index in range, credentials of a type
   other than 0 and an address in their low 20 bytes, in the record's active period,
   and with a proof of it that leads to the block root. The address and the balance of
   the record are what is registered.
   */
  lemma RegisterClaimIff(H: HashFn, proof: seq<Word>, v: BeaconChainValidator, high: bv96, a: Address, i: nat,
                         blockRoot: Option<Word>, time: nat)
    requires v.withdrawalCredentials.bits == Credentials(high, a)
    ensures var r := RegisterClaim(H, proof, v, i, blockRoot, time);
      && (r.Success? <==> (
            798245441765376 + i < TWO_64 && high >> 88 != 0
            && ActiveAt(v, time)
            && blockRoot.Some? && AcceptsValidator(H, proof, v, 798245441765376 + i, blockRoot.value)))
      && (r.Success? ==> r.value == Entrant(Stake(v), a) && Stake(v) == v.effectiveBalance as nat)
      && (r == Failure(Panic) <==> 798245441765376 + i >= TWO_64 || (high >> 88 != 0 && time < 1606824000))
  {
    hide AcceptsValidator, Credentials, WithdrawalToAddress, IsActiveValidator, RegisterClaim, ValidatorVerdict;
    hide ActiveAt, Stake;
    CredentialsAddress(v.withdrawalCredentials, high, a);
    ActiveInterval(v, time);
    StakeIs(v);
    VerdictAccepts(H, proof, v, ZERO_VALIDATOR_INDEX + i, blockRoot);
    RegisterClaimCases(H, proof, v, i, blockRoot, time);
  }

  lemma StakeIs(v: BeaconChainValidator)
    ensures Stake(v) == v.effectiveBalance as nat
  {
  }

  lemma VerdictAccepts(H: HashFn, proof: seq<Word>, v: BeaconChainValidator, g: nat, blockRoot: Option<Word>)
    ensures var verdict := ValidatorVerdict(H, proof, v, g, blockRoot);
      && (verdict.Success? <==> blockRoot.Some? && AcceptsValidator(H, proof, v, g, blockRoot.value))
      && (verdict.Success? ==> verdict.value)
  {
    hide Fold, Depth, ValidatorRoot;
  }

  lemma RegisterClaimCases(H: HashFn, proof: seq<Word>, v: BeaconChainValidator, i: nat,
                           blockRoot: Option<Word>, time: nat)
    ensures var r := RegisterClaim(H, proof, v, i, blockRoot, time);
      var fits, owner := ZERO_VALIDATOR_INDEX + i < TWO_64, WithdrawalToAddress(v.withdrawalCredentials);
      var active := IsActiveValidator(v, time);
      var verdict := ValidatorVerdict(H, proof, v, ZERO_VALIDATOR_INDEX + i, blockRoot);
      && (r.Success? <==> fits && owner.Success? && active == Some(true) && verdict.Success?)
      && (r.Success? ==> r.value == Entrant(Stake(v), owner.value))
      && (r == Failure(Panic) <==> !fits || (owner.Success? && active.None?))
  {
    hide WithdrawalToAddress, IsActiveValidator, ValidatorVerdict, Stake;
  }

  /** An update learns the record's activity exactly from a proof of it that leads to the block root. */
  lemma UpdateCheckIff(H: HashFn, proof: seq<Word>, v: BeaconChainValidator, i: nat, blockRoot: Option<Word>, time: nat)
    ensures var r := UpdateCheck(H, proof, v, i, blockRoot, time);
      && (r.Success? <==> (
            798245441765376 + i < TWO_64 && time >= 1606824000
            && blockRoot.Some? && AcceptsValidator(H, proof, v, 798245441765376 + i, blockRoot.value)))
      && (r.Success? ==>
            (r.value <==> ActiveAt(v, time)))
  {
    hide AcceptsValidator, IsActiveValidator, ValidatorVerdict, ActiveAt;
    VerdictAccepts(H, proof, v, ZERO_VALIDATOR_INDEX + i, blockRoot);
    ActiveInterval(v, time);
  }

  /** A collision on the branch of a submitted record or among its chunks. */
  ghost predicate RecordCollides(H: HashFn, tree: Labelling, proof: seq<Word>, v: BeaconChainValidator, g: nat) {
    BranchCollides(H, tree, proof, ValidatorRoot(H, v), g) || ChunksCollide(H, Chunks(v), Subtree(tree, g))
  }

  /**
   A completed registration enters the block's own record for that index: stake and
   address are what the block holds there, or a collision shows.
   */
  lemma RegistrationTruthful(H: HashFn, p: Pool, tree: Labelling, proof: seq<Word>, v: BeaconChainValidator,
                             i: nat, value: nat, time: nat, claim: Result<Entrant, PoolError>, o: Outcome)
    requires Solvent(p) && ConsistentToChunks(H, tree, 798245441765376 + i)
    requires claim == RegisterClaim(H, proof, v, i, Some(tree(1)), time)
    requires o.Done? && o == Execute(p, Op.Register(i, value, claim), time)
    ensures claim == Success(Entrant(Stake(v), LowAddress(v.withdrawalCredentials.bits)))
    ensures i !in p.validators && o.pool.validators == p.validators[i := Joined(claim.value, time)]
    ensures RecordAt(tree, 798245441765376 + i, v) || RecordCollides(H, tree, proof, v, 798245441765376 + i)
    ensures i < Pow2(40) ==> 798245441765376 + i == ConcatAll([11, 43, Pow2(41) + i])
  {
    hide Execute, LowAddress, AcceptsValidator, RecordAt, RegisterClaim, RecordCollides, Solvent, Stake;
    hide ConsistentToChunks, ConcatAll, Pow2;
    RegisterOutcome(p, i, value, claim, time);
    ClaimOutcome(H, proof, v, i, Some(tree(1)), time);
    AcceptedRecord(H, tree, proof, v, 798245441765376 + i);
    if i < Pow2(40) {
      JointPath(i);
    }
  }

  /**
   A completed update of an active validator installs the balance that the block holds
   for that index, and credits the old one up to now; a completed update of an inactive
   one removes it, and the block has it inactive. Or a collision shows.
   */
  lemma UpdateTruthful(H: HashFn, p: Pool, tree: Labelling, proof: seq<Word>, v: BeaconChainValidator,
                       i: nat, sent: bool, time: nat)
    requires Solvent(p) && ConsistentToChunks(H, tree, 798245441765376 + i)
    requires var check := UpdateCheck(H, proof, v, i, Some(tree(1)), time);
      Execute(p, Op.Update(i, check, Stake(v), sent), time).Done?
    ensures i in p.validators
    ensures var check := UpdateCheck(H, proof, v, i, Some(tree(1)), time);
      var q := Execute(p, Op.Update(i, check, Stake(v), sent), time).pool;
      if ActiveAt(v, time) then
        p.validators[i].start <= time
        && q.validators == p.validators[i := Updated(p.validators[i], Stake(v), time)]
      else q.validators == p.validators - {i}
    ensures Stake(v) == v.effectiveBalance as nat
    ensures RecordAt(tree, 798245441765376 + i, v) || RecordCollides(H, tree, proof, v, 798245441765376 + i)
  {
    hide Execute, AcceptsValidator, RecordAt, UpdateCheck, Solvent, RecordCollides;
    hide ConsistentToChunks, ActiveAt, Stake;
    var check := UpdateCheck(H, proof, v, i, Some(tree(1)), time);
    StakeIs(v);
    UpdateOutcome(p, i, check, Stake(v), sent, time);
    UpdateCheckIff(H, proof, v, i, Some(tree(1)), time);
    AcceptedRecord(H, tree, proof, v, 798245441765376 + i);
  }

  lemma UpdateOutcome(p: Pool, i: nat, check: Result<bool, PoolError>, stake: uint64, sent: bool, time: nat)
    requires Solvent(p) && Execute(p, Op.Update(i, check, stake, sent), time).Done?
    ensures i in p.validators && check.Success?
    ensures var q := Execute(p, Op.Update(i, check, stake, sent), time).pool;
      if check.value then
        p.validators[i].start <= time && q.validators == p.validators[i := Updated(p.validators[i], stake, time)]
      else q.validators == p.validators - {i}
  {
    EntriesLaw(p, Op.Update(i, check, stake, sent), time);
    hide Execute;
  }

  lemma AcceptedRecord(H: HashFn, tree: Labelling, proof: seq<Word>, v: BeaconChainValidator, g: nat)
    requires AcceptsValidator(H, proof, v, g, tree(1)) && ConsistentToChunks(H, tree, g)
    ensures RecordAt(tree, g, v) || RecordCollides(H, tree, proof, v, g)
  {
    hide AcceptsValidator, RecordAt, BranchCollides, ChunksCollide, ConsistentToChunks;
    AcceptedVerdict(H, proof, v, g, tree(1));
    ValidatorBinding(H, tree, proof, v, g);
  }

  lemma AcceptedVerdict(H: HashFn, proof: seq<Word>, v: BeaconChainValidator, g: nat, root: Word)
    requires AcceptsValidator(H, proof, v, g, root)
    ensures ValidatorVerdict(H, proof, v, g, Some(root)) == Success(true)
  {
    hide Fold, Depth, ValidatorRoot;
  }

  /** The caller sees the ETH paid out, or the revert reason. */
  predicate Reports(r: Result<Payment, PoolError>, o: Outcome) {
    match o
    case Done(_, payment) => r == Success(payment)
    case Reverted(e) => r == Failure(e)
  }

  // ----- what a completed transaction did, as its caller sees it -----

  lemma RegisterFacts(H: HashFn, p: Pool, proof: seq<Word>, v: BeaconChainValidator, i: nat,
                      blockRoot: Option<Word>, value: nat, time: nat)
    requires Solvent(p)
    requires Execute(p, Op.Register(i, value, RegisterClaim(H, proof, v, i, blockRoot, time)), time).Done?
    ensures var q := Execute(p, Op.Register(i, value, RegisterClaim(H, proof, v, i, blockRoot, time)), time).pool;
      i !in p.validators && value == 100_000_000_000_000_000 && q.balance == p.balance + value
      && q.validators == p.validators[
           i := Validator(Stake(v), LowAddress(v.withdrawalCredentials.bits), 100_000_000_000_000_000, time, 0)]
    ensures blockRoot.Some? && AcceptsValidator(H, proof, v, 798245441765376 + i, blockRoot.value)
  {
    hide Execute, LowAddress, AcceptsValidator, RegisterClaim, Solvent, Stake;
    var claim := RegisterClaim(H, proof, v, i, blockRoot, time);
    RegisterOutcome(p, i, value, claim, time);
    ClaimOutcome(H, proof, v, i, blockRoot, time);
  }

  lemma RegisterOutcome(p: Pool, i: nat, value: nat, claim: Result<Entrant, PoolError>, time: nat)
    requires Solvent(p) && Execute(p, Op.Register(i, value, claim), time).Done?
    ensures var q := Execute(p, Op.Register(i, value, claim), time).pool;
      i !in p.validators && value == 100_000_000_000_000_000 && q.balance == p.balance + value
      && claim.Success? && q.validators == p.validators[i := Joined(claim.value, time)]
  {
    EntriesLaw(p, Op.Register(i, value, claim), time);
    EthConserved(p, Op.Register(i, value, claim), time);
    hide Execute;
  }

  lemma ClaimOutcome(H: HashFn, proof: seq<Word>, v: BeaconChainValidator, i: nat, blockRoot: Option<Word>, time: nat)
    requires RegisterClaim(H, proof, v, i, blockRoot, time).Success?
    ensures RegisterClaim(H, proof, v, i, blockRoot, time).value
         == Entrant(Stake(v), LowAddress(v.withdrawalCredentials.bits))
    ensures blockRoot.Some? && AcceptsValidator(H, proof, v, 798245441765376 + i, blockRoot.value)
  {
    hide Credentials, LowAddress, HighBits, AcceptsValidator, RegisterClaim, ActiveAt, Stake;
    var bits := v.withdrawalCredentials.bits;
    CredentialsSplit(bits);
    RegisterClaimIff(H, proof, v, HighBits(bits), LowAddress(bits), i, blockRoot, time);
    StakeIs(v);
  }

  lemma UpdateFacts(H: HashFn, p: Pool, proof: seq<Word>, v: BeaconChainValidator, i: nat,
                    blockRoot: Option<Word>, sent: bool, time: nat)
    requires Solvent(p)
    requires Execute(p, Op.Update(i, UpdateCheck(H, proof, v, i, blockRoot, time), Stake(v), sent), time).Done?
    ensures i in p.validators
    ensures
      var q := Execute(p, Op.Update(i, UpdateCheck(H, proof, v, i, blockRoot, time), Stake(v), sent), time).pool;
      if ActiveAt(v, time) then
        p.validators[i].start <= time && q.validators == p.validators[i := Updated(p.validators[i], Stake(v), time)]
      else q.validators == p.validators - {i}
    ensures blockRoot.Some? && AcceptsValidator(H, proof, v, 798245441765376 + i, blockRoot.value)
  {
    hide Execute, AcceptsValidator, UpdateCheck, Solvent, ActiveAt, Stake, Updated;
    UpdateOutcome(p, i, UpdateCheck(H, proof, v, i, blockRoot, time), Stake(v), sent, time);
    UpdateCheckIff(H, proof, v, i, blockRoot, time);
  }

  lemma WithdrawFacts(p: Pool, op: Op, time: nat)
    requires Solvent(p) && op.Withdraw? && Execute(p, op, time).Done?
    ensures op.i in p.validators && p.validators[op.i].start <= op.timestamp
    ensures var v, q := p.validators[op.i], Execute(p, op, time).pool;
      && q.validators == p.validators[op.i := v.(start := q.lastRebalance, smooths := 0)]
      && q.balance <= p.balance
      && Execute(p, op, time).payment == Pay(v.withdrawal, p.balance - q.balance)
  {
    WithdrawalPays(p, op, time);
    EntriesLaw(p, op, time);
    EthConserved(p, op, time);
    hide Execute;
  }

  lemma RemovalFacts(p: Pool, op: Op, time: nat)
    requires Solvent(p) && (op.Slash? || op.Exit?) && Execute(p, op, time).Done?
    ensures Execute(p, op, time).pool.validators == p.validators - {op.i}
    ensures op.Slash? ==> op.i in p.validators && !op.correct
    ensures op.Exit? && op.i in p.validators ==> op.sender == p.validators[op.i].withdrawal
    ensures op.i in p.validators ==> Execute(p, op, time).payment == Pay(op.sender, 100_000_000_000_000_000)
  {
    EntriesLaw(p, op, time);
    if op.i in p.validators {
      EntryRemoved(p, op, time, op.i);
    }
    hide Execute;
  }

  /** Transient words as other calls of the same transaction can have left them. */
  ghost predicate Transient(words: A.HashMap)
    reads words
  {
    words.Valid() && Indexed(words.values) && Leftover(words.values)
  }

  /**
   A slash goes through exactly when the named fee recipient is not the pool and the
   claim is accepted or the root word left by an earlier call of the transaction is the
   block root and is not written over; in the second case for every validator.
   */
  lemma SlashDecision(H: HashFn, p: Pool, left: Option<Word>, i0: nat, i1: nat, proof: seq<Word>,
                      validatorIndex: bv256, feeRecipient: Address, root: Word,
                      correct: bool, sender: Address, sent: bool, time: nat)
    requires |proof| == |HelperIndices([i0, i1])|
    requires Rebalance(p, time).Some? && Rebalance(p, time).value.Entry(validatorIndex as nat).start > 0
    ensures
      var verdict := ClaimVerdict(H, left, [i0, i1], proof, validatorIndex, feeRecipient, Some(root));
      Execute(p, Op.Slash(validatorIndex as nat, Lift(verdict), correct, sender, sent), time) ==
        if !(if left.Some? && i0 != 1 && i1 != 1 then left == Some(root)
             else AcceptsClaim(H, [i0, i1], proof, validatorIndex, feeRecipient, root))
        then Reverted(Oracle(InvalidProof))
        else if correct then Reverted(CorrectFeeRecipient)
        else ExitValidator(Rebalance(p, time).value, validatorIndex as nat, sender, sent)
  {
    hide AcceptsClaim, ExitValidator, Rebalance, HelperIndices, RootRead, ClaimLeaves;
    LeftoverDecides(H, left, i0, i1, proof, validatorIndex, feeRecipient, root);
  }

  class SmoothlyPoolV2 {
    const H: HashFn
    const self: Address
    var balance: nat
    var lastRebalance: nat
    var totalEB: nat
    var totalBond: nat
    var smooths: nat
    var pendingEB: nat
    var pendingSmooths: nat
    var validators: map<nat, Validator>
    // The history as the books need it: pending validators and errors.
    ghost var book: Book

    ghost predicate Valid()
      reads this
    {
      book.pool == State() && Kept(book) && Solvent(State())
    }

    function State(): Pool
      reads this
    {
      Pool(balance, lastRebalance, totalEB, totalBond, smooths, pendingEB, pendingSmooths, validators)
    }

    constructor (H: HashFn, self: Address, time: nat)
      requires time > 0
      ensures Valid() && book == BookRun(time, [])
      ensures State() == Deployed(time) && this.H == H && this.self == self
    {
      DeployedKept(time);
      this.H, this.self := H, self;
      balance, lastRebalance, totalEB, totalBond := 0, time, 0, 0;
      smooths, pendingEB, pendingSmooths, validators := 0, 0, 0, map[];
      book := BookRun(time, []);
    }

    /** Reverting restores the storage of the whole transaction. */
    method Rollback(saved: Pool)
      modifies this
      ensures State() == saved && book == old(book)
    {
      balance, totalBond, validators := saved.balance, saved.totalBond, saved.validators;
      lastRebalance, totalEB, smooths := saved.lastRebalance, saved.totalEB, saved.smooths;
      pendingEB, pendingSmooths := saved.pendingEB, saved.pendingSmooths;
    }

    /** The transaction is over: it kept the pool solvent and moved accumulators and sums together. */
    ghost method Conclude(op: Op, time: nat)
      requires Kept(book) && Solvent(book.pool) && State() == Next(book.pool, op, time)
      modifies this`book
      ensures Valid() && book == Track(old(book), op, time)
    {
      hide Kept, Solvent, Execute, Next, Track;
      TrackPool(book, op, time);
      StepSolvent(book.pool, op, time);
      TrackKept(book, op, time);
      book := Track(book, op, time);
    }

    function TotalETH(): (eth: Option<nat>)
      reads this
      ensures eth.Some? <==> balance >= totalBond
      ensures eth.Some? ==> eth.value + totalBond == balance
    {
      if balance < totalBond then None else Some(balance - totalBond)
    }

    // ----- internal steps; `ok` is false on an arithmetic panic -----

    method DoRebalance(timestamp: nat) returns (ok: bool)
      modifies this
      ensures book == old(book)
      ensures ok <==> Rebalance(old(State()), timestamp).Some?
      ensures ok ==> State() == Rebalance(old(State()), timestamp).value
    {
      if timestamp < lastRebalance {
        return false;
      }
      var ellapsed := timestamp - lastRebalance;
      if ellapsed > REBALANCE_PERIOD {
        smooths := smooths + totalEB * ellapsed + pendingEB * (ellapsed - REBALANCE_PERIOD) + pendingSmooths;
        totalEB := totalEB + pendingEB;
        if smooths >= TWO_256 || totalEB >= TWO_256 {
          return false;
        }
        lastRebalance := timestamp;
        pendingSmooths := 0;
        pendingEB := 0;
      }
      return true;
    }

    method AllocateSmooths(effectiveBalance: nat, timestamp: nat) returns (ok: bool)
      modifies this
      ensures book == old(book)
      ensures ok <==> Allocate(old(State()), effectiveBalance, timestamp).Some?
      ensures ok ==> State() == Allocate(old(State()), effectiveBalance, timestamp).value
    {
      if timestamp < lastRebalance || timestamp - lastRebalance > REBALANCE_PERIOD {
        return false;
      }
      var ellapsed := timestamp - lastRebalance;
      pendingEB := pendingEB + effectiveBalance;
      pendingSmooths := pendingSmooths + effectiveBalance * (REBALANCE_PERIOD - ellapsed);
      return pendingEB < TWO_256 && pendingSmooths < TWO_256;
    }

    function GetShares(validator: Validator): int
      reads this
      ensures GetShares(validator) == Shares(State(), validator)
    {
      (lastRebalance - validator.start) * validator.effectiveBalance + validator.smooths
    }

    /** Takes the validator out of the accumulators, refunds its bond and forgets it. */
    method DoExit(validatorIndex: nat, recipient: Address, sent: bool) returns (r: Result<Payment, PoolError>)
      modifies this
      ensures book == old(book)
      ensures Reports(r, ExitValidator(old(State()), validatorIndex, recipient, sent))
      ensures r.Success? ==> State() == ExitValidator(old(State()), validatorIndex, recipient, sent).pool
    {
      var validator := State().Entry(validatorIndex);
      if validator.start >= lastRebalance {
        if pendingEB < validator.effectiveBalance {
          return Failure(Panic);
        }
        pendingEB := pendingEB - validator.effectiveBalance;
        if validator.start - lastRebalance > REBALANCE_PERIOD {
          return Failure(Panic);
        }
        var late := validator.effectiveBalance * (REBALANCE_PERIOD - (validator.start - lastRebalance));
        if pendingSmooths < late || smooths < validator.smooths {
          return Failure(Panic);
        }
        pendingSmooths := pendingSmooths - late;
        smooths := smooths - validator.smooths;
      } else {
        if totalEB < validator.effectiveBalance {
          return Failure(Panic);
        }
        totalEB := totalEB - validator.effectiveBalance;
        var shares := GetShares(validator);
        if !Fits(shares) || smooths < shares {
          return Failure(Panic);
        }
        smooths := smooths - shares;
      }
      if totalBond < validator.bond {
        return Failure(Panic);
      }
      totalBond := totalBond - validator.bond;
      if !sent || balance < validator.bond {
        return Failure(SendFailed);
      }
      balance := balance - validator.bond;
      validators := validators - {validatorIndex};
      return Success(Pay(recipient, validator.bond));
    }

    /** Pays a validator its share of the distributable ETH. */
    method DoWithdraw(validator: Validator, sent: bool) returns (r: Result<Payment, PoolError>)
      requires balance >= totalBond
      modifies this
      ensures book == old(book)
      ensures r == match ClaimResult(old(State()), validator, sent)
        case Success(paid) => Success(Pay(validator.withdrawal, paid))
        case Failure(e) => Failure(e)
      ensures r.Success? ==> State() == old(State()).(
        smooths := old(smooths) - Claimable(old(State()), validator), balance := old(balance) - r.value.amount)
    {
      if smooths == 0 {
        return Failure(WithdrawalsDisabled);
      }
      var share := if validator.start >= lastRebalance then validator.smooths as int else GetShares(validator);
      if !Fits(share) || !Fits(share * BPS) {
        return Failure(Panic);
      }
      var scaled := (share * BPS / smooths) * (balance - totalBond);
      if !Fits(scaled) {
        return Failure(Panic);
      }
      var eth := scaled / BPS;
      if smooths < share {
        return Failure(Panic);
      }
      smooths := smooths - share;
      if !sent || balance < eth {
        return Failure(SendFailed);
      }
      balance := balance - eth;
      return Success(Pay(validator.withdrawal, eth));
    }

    // ----- transactions -----

    method Register(validatorIndex: bv64, validatorProof: array<Word>, validator: BeaconChainValidator,
                    blockRoot: Option<Word>, value: nat, time: nat)
      returns (r: Result<Payment, PoolError>)
      requires Valid()
      modifies this
      ensures Valid()
      ensures r.Failure? ==> State() == old(State())
      ensures Key(validatorIndex) == validatorIndex as nat
      ensures r.Success? ==>
        Key(validatorIndex) !in old(validators) && value == 100_000_000_000_000_000 && balance == old(balance) + value
        && blockRoot.Some?
        && AcceptsValidator(H, validatorProof[..], validator, 798245441765376 + Key(validatorIndex), blockRoot.value)
        && validators == old(validators)[Key(validatorIndex) := Validator(
             Stake(validator), LowAddress(validator.withdrawalCredentials.bits), 100_000_000_000_000_000, time, 0)]
      ensures
        var claim := RegisterClaim(H, validatorProof[..], validator, Key(validatorIndex), blockRoot, time);
        var op := Op.Register(Key(validatorIndex), value, claim);
        Reports(r, Execute(old(State()), op, time)) && State() == Next(old(State()), op, time)
        && book == Track(old(book), op, time)
    {
      hide RegisterClaim, Key, Execute, Kept, Solvent, Track, AcceptsValidator, LowAddress, Stake;
      ghost var claim := RegisterClaim(H, validatorProof[..], validator, Key(validatorIndex), blockRoot, time);
      var saved := State();
      r := RegisterBody(validatorIndex, validatorProof, validator, blockRoot, value, time);
      if r.Failure? {
        Rollback(saved);
      }
      if r.Success? {
        RegisterFacts(H, saved, validatorProof[..], validator, Key(validatorIndex), blockRoot, value, time);
      }
      Conclude(Op.Register(Key(validatorIndex), value, claim), time);
      KeyIs(validatorIndex);
    }

    method RegisterBody(validatorIndex: bv64, validatorProof: array<Word>, validator: BeaconChainValidator,
                        blockRoot: Option<Word>, value: nat, time: nat)
      returns (r: Result<Payment, PoolError>)
      modifies this
      ensures book == old(book)
      ensures
        var claim := RegisterClaim(H, validatorProof[..], validator, Key(validatorIndex), blockRoot, time);
        var op := Op.Register(Key(validatorIndex), value, claim);
        Reports(r, Execute(old(State()), op, time)) && (r.Success? ==> State() == Next(old(State()), op, time))
    {
      hide RegisterClaim, Key, Rebalance, Enroll;
      var ok := DoRebalance(time);
      if !ok {
        return Failure(Panic);
      }
      balance := balance + value;
      if value != BOND {
        return Failure(BondNotSatisfied);
      }
      var i := Key(validatorIndex);
      if State().Entry(i).start > 0 {
        return Failure(AlreadyRegistered);
      }
      var claim := CheckEntrant(validatorIndex, validatorProof, validator, blockRoot, time);
      if claim.Failure? {
        return Failure(claim.error);
      }
      ok := DoEnroll(i, claim.value, time);
      if !ok {
        return Failure(Panic);
      }
      return Success(Nothing);
    }

    /** Writes the entry of a validator that the oracle let in. */
    method DoEnroll(i: nat, entrant: Entrant, time: nat) returns (ok: bool)
      modifies this
      ensures book == old(book)
      ensures ok <==> Enroll(old(State()), i, entrant, time).Some?
      ensures ok ==> State() == Enroll(old(State()), i, entrant, time).value
    {
      var entry := State().Entry(i);
      validators := validators[i := entry.(effectiveBalance := entrant.effectiveBalance,
                                           withdrawal := entrant.withdrawal, bond := BOND, start := time)];
      totalBond := totalBond + BOND;
      if totalBond >= TWO_256 {
        return false;
      }
      ok := AllocateSmooths(entrant.effectiveBalance, time);
    }

    /** The oracle's part of a registration. */
    method CheckEntrant(validatorIndex: bv64, validatorProof: array<Word>, validator: BeaconChainValidator,
                        blockRoot: Option<Word>, time: nat)
      returns (claim: Result<Entrant, PoolError>)
      ensures claim == RegisterClaim(H, validatorProof[..], validator, Key(validatorIndex), blockRoot, time)
    {
      hide ValidatorVerdict, WithdrawalToAddress, IsActiveValidator, Stake, Key;
      var i := Key(validatorIndex);
      if ZERO_VALIDATOR_INDEX + i >= TWO_64 {
        return Failure(Panic);
      }
      var gIndex := ZERO_VALIDATOR_INDEX + i;
      var withdrawal := WithdrawalToAddress(validator.withdrawalCredentials);
      if withdrawal.Failure? {
        return Failure(Oracle(withdrawal.error));
      }
      var active := IsActiveValidator(validator, time);
      if active.None? {
        return Failure(Panic);
      }
      if !active.value {
        return Failure(InactiveValidator);
      }
      var verified := VerifyValidator(H, validatorProof, validator, gIndex, blockRoot);
      if verified.Failure? {
        return Failure(Oracle(verified.error));
      }
      return Success(Entrant(Stake(validator), withdrawal.value));
    }

    /** The oracle's part of an update. */
    method CheckActive(validatorIndex: bv64, validatorProof: array<Word>, validator: BeaconChainValidator,
                       blockRoot: Option<Word>, time: nat)
      returns (check: Result<bool, PoolError>)
      ensures check == UpdateCheck(H, validatorProof[..], validator, Key(validatorIndex), blockRoot, time)
    {
      hide ValidatorVerdict, IsActiveValidator, Key;
      var i := Key(validatorIndex);
      if ZERO_VALIDATOR_INDEX + i >= TWO_64 {
        return Failure(Panic);
      }
      var verified := VerifyValidator(H, validatorProof, validator, ZERO_VALIDATOR_INDEX + i, blockRoot);
      if verified.Failure? {
        return Failure(Oracle(verified.error));
      }
      var active := IsActiveValidator(validator, time);
      if active.None? {
        return Failure(Panic);
      }
      return Success(active.value);
    }

    method Withdraw(words: A.HashMap, indices: array<A.Index>, proof: array<Word>, validatorIndex: bv256,
                    timestamp: nat, blockRoot: Option<Word>, time: nat, sent: bool)
      returns (r: Result<Payment, PoolError>)
      requires Valid() && Transient(words)
      modifies this, words
      ensures Valid() && Transient(words)
      ensures r.Failure? ==> State() == old(State())
      ensures r.Success? ==>
        var i := validatorIndex as nat;
        i in old(validators) && old(validators)[i].start <= timestamp
        && validators == old(validators)[i := old(validators)[i].(start := lastRebalance, smooths := 0)]
        && balance <= old(balance) && r.value == Pay(old(validators)[i].withdrawal, old(balance) - balance)
      ensures r.Failure? ==> words.values == old(words.values)
      ensures r.Success? && (exists i :: i in indices[..] && i >= 1) ==> LeftRoot(words.values) == blockRoot
      ensures
        var verdict := ClaimVerdict(H, LeftRoot(old(words.values)), indices[..], proof[..],
                                    validatorIndex, self, blockRoot);
        var op := Op.Withdraw(validatorIndex as nat, timestamp, Lift(verdict), sent);
        Reports(r, Execute(old(State()), op, time)) && State() == Next(old(State()), op, time)
        && book == Track(old(book), op, time)
    {
      hide ClaimVerdict, Execute, Kept, Solvent, Track;
      ghost var verdict := ClaimVerdict(H, LeftRoot(words.values), indices[..], proof[..],
                                        validatorIndex, self, blockRoot);
      var saved, savedWords := State(), words.values;
      r := WithdrawBody(words, indices, proof, validatorIndex, timestamp, blockRoot, time, sent);
      if r.Failure? {
        Rollback(saved);
        words.Restore(savedWords);
      }
      if r.Success? {
        WithdrawFacts(saved, Op.Withdraw(validatorIndex as nat, timestamp, Lift(verdict), sent), time);
      }
      Conclude(Op.Withdraw(validatorIndex as nat, timestamp, Lift(verdict), sent), time);
    }

    method WithdrawBody(words: A.HashMap, indices: array<A.Index>, proof: array<Word>, validatorIndex: bv256,
                        timestamp: nat, blockRoot: Option<Word>, time: nat, sent: bool)
      returns (r: Result<Payment, PoolError>)
      requires Transient(words)
      modifies this, words
      ensures book == old(book) && Transient(words)
      ensures r.Success? && (exists i :: i in indices[..] && i >= 1) ==> LeftRoot(words.values) == blockRoot
      ensures
        var verdict := ClaimVerdict(H, LeftRoot(old(words.values)), indices[..], proof[..],
                                    validatorIndex, self, blockRoot);
        var op := Op.Withdraw(validatorIndex as nat, timestamp, Lift(verdict), sent);
        Reports(r, Execute(old(State()), op, time)) && (r.Success? ==> State() == Next(old(State()), op, time))
    {
      hide ClaimVerdict, ClaimResult, Claimable, Rebalance, Leftover, Indexed;
      var ok := DoRebalance(time);
      if !ok {
        return Failure(Panic);
      }
      var i := validatorIndex as nat;
      var validator := State().Entry(i);
      if validator.start == 0 {
        return Failure(Unregistered);
      }
      if timestamp < validator.start {
        return Failure(InvalidBlockTimestamp);
      }
      var eth := TotalETH();
      if eth.None? {
        return Failure(Panic);
      }
      if eth.value == 0 {
        return Failure(EmptyPool);
      }
      var verified := VerifyFeeRecipient(H, words, indices, proof, validatorIndex, self, blockRoot);
      if verified.Failure? {
        return Failure(Oracle(verified.error));
      }
      r := DoWithdraw(validator, sent);
      if r.Failure? {
        return;
      }
      validators := validators[i := validator.(start := lastRebalance, smooths := 0)];
    }

    method UpdateValidator(validatorIndex: bv64, validatorProof: array<Word>, validator: BeaconChainValidator,
                           blockRoot: Option<Word>, time: nat, sent: bool)
      returns (r: Result<Payment, PoolError>)
      requires Valid()
      modifies this
      ensures Valid()
      ensures r.Failure? ==> State() == old(State())
      ensures Key(validatorIndex) == validatorIndex as nat && Stake(validator) == validator.effectiveBalance as nat
      ensures r.Success? ==>
        var i := Key(validatorIndex);
        i in old(validators) && blockRoot.Some?
        && AcceptsValidator(H, validatorProof[..], validator, 798245441765376 + i, blockRoot.value)
        && if ActiveAt(validator, time)
           then old(validators)[i].start <= time
                && validators == old(validators)[i := Updated(old(validators)[i], Stake(validator), time)]
           else validators == old(validators) - {i}
      ensures
        var check := UpdateCheck(H, validatorProof[..], validator, Key(validatorIndex), blockRoot, time);
        var op := Op.Update(Key(validatorIndex), check, Stake(validator), sent);
        Reports(r, Execute(old(State()), op, time)) && State() == Next(old(State()), op, time)
        && book == Track(old(book), op, time)
    {
      hide UpdateCheck, Stake, Key, Execute, Kept, Solvent, Track, AcceptsValidator, ActiveAt, Updated;
      ghost var check := UpdateCheck(H, validatorProof[..], validator, Key(validatorIndex), blockRoot, time);
      var saved := State();
      r := UpdateBody(validatorIndex, validatorProof, validator, blockRoot, time, sent);
      if r.Failure? {
        Rollback(saved);
      }
      if r.Success? {
        UpdateFacts(H, saved, validatorProof[..], validator, Key(validatorIndex), blockRoot, sent, time);
      }
      Conclude(Op.Update(Key(validatorIndex), check, Stake(validator), sent), time);
      KeyIs(validatorIndex);
      StakeIs(validator);
    }

    method UpdateBody(validatorIndex: bv64, validatorProof: array<Word>, validator: BeaconChainValidator,
                      blockRoot: Option<Word>, time: nat, sent: bool)
      returns (r: Result<Payment, PoolError>)
      modifies this
      ensures book == old(book)
      ensures
        var check := UpdateCheck(H, validatorProof[..], validator, Key(validatorIndex), blockRoot, time);
        var op := Op.Update(Key(validatorIndex), check, Stake(validator), sent);
        Reports(r, Execute(old(State()), op, time)) && (r.Success? ==> State() == Next(old(State()), op, time))
    {
      hide UpdateCheck, ExitValidator, Stake, Key, Rebalance, Renew;
      var ok := DoRebalance(time);
      if !ok {
        return Failure(Panic);
      }
      var i := Key(validatorIndex);
      var entry := State().Entry(i);
      if entry.start == 0 {
        return Failure(Unregistered);
      }
      var active := CheckActive(validatorIndex, validatorProof, validator, blockRoot, time);
      if active.Failure? {
        return Failure(active.error);
      }
      if !active.value {
        r := DoExit(i, entry.withdrawal, sent);
        return;
      }
      if entry.start >= lastRebalance {
        return Failure(UpdateNotAvailable);
      }
      ok := DoRenew(i, Stake(validator), time);
      if !ok {
        return Failure(Panic);
      }
      return Success(Nothing);
    }

    /** Credits a validator up to now and makes it pending with its new stake. */
    method DoRenew(i: nat, effectiveBalance: uint64, time: nat) returns (ok: bool)
      modifies this
      ensures book == old(book)
      ensures ok <==> Renew(old(State()), i, effectiveBalance, time).Some?
      ensures ok ==> State() == Renew(old(State()), i, effectiveBalance, time).value
    {
      var entry := State().Entry(i);
      var share := (time - entry.start) * entry.effectiveBalance;
      if !Fits(share) || totalEB < entry.effectiveBalance || !Fits(entry.smooths + share) {
        return false;
      }
      totalEB := totalEB - entry.effectiveBalance;
      validators := validators[i := entry.(smooths := entry.smooths + share, start := time,
                                           effectiveBalance := effectiveBalance)];
      ok := AllocateSmooths(effectiveBalance, time);
    }

    method SlashBadFeeRecipient(words: A.HashMap, indices: array<A.Index>, proof: array<Word>, validatorIndex: bv256,
                                feeRecipient: Address, blockRoot: Option<Word>, sender: Address, time: nat, sent: bool)
      returns (r: Result<Payment, PoolError>)
      requires Valid() && Transient(words)
      modifies this, words
      ensures Valid() && Transient(words)
      ensures r.Failure? ==> State() == old(State())
      ensures feeRecipient == self ==> r.Failure?
      ensures r.Success? ==>
        validatorIndex as nat in old(validators) && validators == old(validators) - {validatorIndex as nat}
        && r.value == Pay(sender, 100_000_000_000_000_000)
      ensures r.Failure? ==> words.values == old(words.values)
      ensures r.Success? && (exists i :: i in indices[..] && i >= 1) ==> LeftRoot(words.values) == blockRoot
      ensures
        var verdict := ClaimVerdict(H, LeftRoot(old(words.values)), indices[..], proof[..],
                                    validatorIndex, feeRecipient, blockRoot);
        var op := Op.Slash(validatorIndex as nat, Lift(verdict), feeRecipient == self, sender, sent);
        Reports(r, Execute(old(State()), op, time)) && State() == Next(old(State()), op, time)
        && book == Track(old(book), op, time)
    {
      hide ClaimVerdict, Execute, Kept, Solvent, Track;
      ghost var verdict := ClaimVerdict(H, LeftRoot(words.values), indices[..], proof[..],
                                        validatorIndex, feeRecipient, blockRoot);
      var saved, savedWords := State(), words.values;
      r := SlashBody(words, indices, proof, validatorIndex, feeRecipient, blockRoot, sender, time, sent);
      if r.Failure? {
        Rollback(saved);
        words.Restore(savedWords);
      }
      if r.Success? {
        RemovalFacts(saved, Op.Slash(validatorIndex as nat, Lift(verdict), feeRecipient == self, sender, sent), time);
      }
      Conclude(Op.Slash(validatorIndex as nat, Lift(verdict), feeRecipient == self, sender, sent), time);
    }

    method SlashBody(words: A.HashMap, indices: array<A.Index>, proof: array<Word>, validatorIndex: bv256,
                     feeRecipient: Address, blockRoot: Option<Word>, sender: Address, time: nat, sent: bool)
      returns (r: Result<Payment, PoolError>)
      requires Transient(words)
      modifies this, words
      ensures book == old(book) && Transient(words)
      ensures r.Success? && (exists i :: i in indices[..] && i >= 1) ==> LeftRoot(words.values) == blockRoot
      ensures
        var verdict := ClaimVerdict(H, LeftRoot(old(words.values)), indices[..], proof[..],
                                    validatorIndex, feeRecipient, blockRoot);
        var op := Op.Slash(validatorIndex as nat, Lift(verdict), feeRecipient == self, sender, sent);
        Reports(r, Execute(old(State()), op, time)) && (r.Success? ==> State() == Next(old(State()), op, time))
    {
      hide ClaimVerdict, ExitValidator, Rebalance, Leftover;
      var ok := DoRebalance(time);
      if !ok {
        return Failure(Panic);
      }
      var i := validatorIndex as nat;
      if State().Entry(i).start == 0 {
        return Failure(Unregistered);
      }
      var verified := VerifyFeeRecipient(H, words, indices, proof, validatorIndex, feeRecipient, blockRoot);
      if verified.Failure? {
        return Failure(Oracle(verified.error));
      }
      if feeRecipient == self {
        return Failure(CorrectFeeRecipient);
      }
      r := DoExit(i, sender, sent);
    }

    method Exit(validatorIndex: nat, sender: Address, time: nat, sent: bool) returns (r: Result<Payment, PoolError>)
      requires Valid()
      modifies this
      ensures Valid()
      ensures r.Failure? ==> State() == old(State())
      ensures r.Success? ==> validators == old(validators) - {validatorIndex}
      ensures r.Success? && validatorIndex in old(validators) ==>
        sender == old(validators)[validatorIndex].withdrawal && r.value == Pay(sender, 100_000_000_000_000_000)
      ensures
        var op := Op.Exit(validatorIndex, sender, sent);
        Reports(r, Execute(old(State()), op, time)) && State() == Next(old(State()), op, time)
        && book == Track(old(book), op, time)
    {
      hide Execute, Kept, Solvent, Track;
      var saved := State();
      r := ExitBody(validatorIndex, sender, time, sent);
      if r.Failure? {
        Rollback(saved);
      }
      if r.Success? {
        RemovalFacts(saved, Op.Exit(validatorIndex, sender, sent), time);
      }
      Conclude(Op.Exit(validatorIndex, sender, sent), time);
    }

    method ExitBody(validatorIndex: nat, sender: Address, time: nat, sent: bool) returns (r: Result<Payment, PoolError>)
      modifies this
      ensures book == old(book)
      ensures
        var op := Op.Exit(validatorIndex, sender, sent);
        Reports(r, Execute(old(State()), op, time)) && (r.Success? ==> State() == Next(old(State()), op, time))
    {
      hide ExitValidator, Rebalance;
      var ok := DoRebalance(time);
      if !ok {
        return Failure(Panic);
      }
      if sender != State().Entry(validatorIndex).withdrawal {
        return Failure(NotOwner);
      }
      r := DoExit(validatorIndex, sender, sent);
    }

    method RebalancePool(time: nat) returns (r: Result<Payment, PoolError>)
      requires Valid()
      modifies this
      ensures Valid()
      ensures r.Failure? ==> State() == old(State())
      ensures Reports(r, Execute(old(State()), Op.RebalanceOnly, time))
      ensures State() == Next(old(State()), Op.RebalanceOnly, time) && book == Track(old(book), Op.RebalanceOnly, time)
    {
      hide Kept, Solvent, Track, Rebalance;
      var saved := State();
      var ok := DoRebalance(time);
      r := if ok then Success(Nothing) else Failure(Panic);
      if !ok {
        Rollback(saved);
      }
      Conclude(Op.RebalanceOnly, time);
    }

    /** A plain transfer or a donation. */
    method Receive(value: nat, time: nat)
      requires Valid()
      modifies this
      ensures Valid()
      ensures State() == Next(old(State()), Op.Receive(value), time)
      ensures book == Track(old(book), Op.Receive(value), time)
    {
      hide Kept, Solvent, Track;
      balance := balance + value;
      Conclude(Op.Receive(value), time);
    }
  }
}
