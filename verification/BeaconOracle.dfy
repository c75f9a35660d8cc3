/**
 `BeaconOracle.sol`: statements about a beacon block accepted against the block root
 that EIP-4788 supplies (None when the lookup fails).
 */
module BeaconOracle {
  import opened Bits
  import opened Gindices
  import opened Arrays
  import opened Encoding
  import opened MerkleTree
  import opened Multiproof
  import opened SSZ
  import opened Wrappers
  import Merkle

  type Address = bv160

  const SECONDS_PER_EPOCH: nat := 12 * 32
  const BEACON_GENESIS: nat := 1606824000

  datatype OracleError =
    | RootNotFound
    | InvalidProof
    | LengthMismatch
    | Log2Undefined
    | InvalidWithdrawalAddr

  // The pubkey is represented by its hash, the first chunk of the container.
  datatype BeaconChainValidator = BeaconChainValidator(
    pubkeyRoot: Word,
    withdrawalCredentials: Word,
    effectiveBalance: bv64,
    slashed: bool,
    activationEligibilityEpoch: bv64,
    activationEpoch: bv64,
    exitEpoch: bv64,
    withdrawableEpoch: bv64)

  /** The eight chunks of the container, in field order. */
  function ChunkAt(v: BeaconChainValidator, i: nat): Word {
    match i
    case 0 => v.pubkeyRoot
    case 1 => v.withdrawalCredentials
    case 2 => Encode64(v.effectiveBalance)
    case 3 => BoolToLittleEndian(v.slashed)
    case 4 => Encode64(v.activationEligibilityEpoch)
    case 5 => Encode64(v.activationEpoch)
    case 6 => Encode64(v.exitEpoch)
    case 7 => Encode64(v.withdrawableEpoch)
    case _ => ZERO
  }

  function Chunks(v: BeaconChainValidator): (chunks: seq<Word>)
    ensures |chunks| == 8
  {
    seq(8, i => if i < 0 then ZERO else ChunkAt(v, i))
  }

  function ValidatorRoot(H: HashFn, v: BeaconChainValidator): Word {
    HashTreeRoot(H, Chunks(v))
  }

  method ValidatorHashTreeRoot(H: HashFn, validator: BeaconChainValidator) returns (root: Word)
    ensures root == ValidatorRoot(H, validator)
  {
    hide Encode64, BoolToLittleEndian, Chunks, HashTreeRoot, Pow2;
    var effectiveBalance := EncodeField(validator.effectiveBalance);
    var eligibility := EncodeField(validator.activationEligibilityEpoch);
    var activation := EncodeField(validator.activationEpoch);
    var exit := EncodeField(validator.exitEpoch);
    var withdrawable := EncodeField(validator.withdrawableEpoch);
    var nodes := new Word[8] [
      validator.pubkeyRoot, validator.withdrawalCredentials, effectiveBalance, BoolToLittleEndian(validator.slashed),
      eligibility, activation, exit, withdrawable];
    ChunksAre(validator, nodes[..]);
    EightIsPow2();
    root := HashInPlace(H, nodes, 3);
  }

  method EncodeField(x: bv64) returns (r: Word)
    ensures r == Encode64(x)
  {
    r := ToLittleEndian(x as bv256);
  }

  lemma ChunksAre(v: BeaconChainValidator, s: seq<Word>)
    requires |s| == 8
    requires s[0] == v.pubkeyRoot && s[1] == v.withdrawalCredentials
    requires s[2] == Encode64(v.effectiveBalance) && s[3] == BoolToLittleEndian(v.slashed)
    requires s[4] == Encode64(v.activationEligibilityEpoch) && s[5] == Encode64(v.activationEpoch)
    requires s[6] == Encode64(v.exitEpoch) && s[7] == Encode64(v.withdrawableEpoch)
    ensures s == Chunks(v)
  {
    hide Encode64, BoolToLittleEndian;
    assert s[0] == ChunkAt(v, 0) && s[1] == ChunkAt(v, 1) && s[2] == ChunkAt(v, 2) && s[3] == ChunkAt(v, 3);
    assert s[4] == ChunkAt(v, 4) && s[5] == ChunkAt(v, 5) && s[6] == ChunkAt(v, 6) && s[7] == ChunkAt(v, 7);
    hide ChunkAt;
  }

  /** The fields can be read back from the chunks. */
  lemma ChunksInjective(v: BeaconChainValidator, w: BeaconChainValidator)
    requires Chunks(v) == Chunks(w)
    ensures v == w
  {
    hide Encode64, BoolToLittleEndian;
    forall i: nat | i < 8
      ensures ChunkAt(v, i) == ChunkAt(w, i)
    {
      assert Chunks(v)[i] == Chunks(w)[i];
    }
    assert ChunkAt(v, 0) == ChunkAt(w, 0) && ChunkAt(v, 1) == ChunkAt(w, 1);
    FieldsInjective(v, w);
  }

  lemma FieldsInjective(v: BeaconChainValidator, w: BeaconChainValidator)
    requires v.pubkeyRoot == w.pubkeyRoot && v.withdrawalCredentials == w.withdrawalCredentials
    requires forall i: nat :: i < 8 ==> ChunkAt(v, i) == ChunkAt(w, i)
    ensures v == w
  {
    hide Encode64, BoolToLittleEndian;
    assert ChunkAt(v, 2) == ChunkAt(w, 2) && ChunkAt(v, 3) == ChunkAt(w, 3) && ChunkAt(v, 4) == ChunkAt(w, 4);
    assert ChunkAt(v, 5) == ChunkAt(w, 5) && ChunkAt(v, 6) == ChunkAt(w, 6) && ChunkAt(v, 7) == ChunkAt(w, 7);
    hide ChunkAt;
    BoolEncodingInjective(v.slashed, w.slashed);
    Encode64Injective(v.effectiveBalance, w.effectiveBalance);
    Encode64Injective(v.activationEligibilityEpoch, w.activationEligibilityEpoch);
    Encode64Injective(v.activationEpoch, w.activationEpoch);
    Encode64Injective(v.exitEpoch, w.exitEpoch);
    Encode64Injective(v.withdrawableEpoch, w.withdrawableEpoch);
  }

  // ----- a validator record -----

  predicate AcceptsValidator(H: HashFn, proof: seq<Word>, v: BeaconChainValidator, gIndex: nat, root: Word) {
    gIndex >= 1 && |proof| == Depth(gIndex) && Fold(H, proof, ValidatorRoot(H, v), gIndex) == root
  }

  function ValidatorVerdict(H: HashFn, proof: seq<Word>, v: BeaconChainValidator, gIndex: nat,
                            blockRoot: Option<Word>): Result<bool, OracleError> {
    match blockRoot
    case None => Failure(RootNotFound)
    case Some(root) =>
      if gIndex == 0 then Failure(Log2Undefined)
      else if AcceptsValidator(H, proof, v, gIndex, root) then Success(true)
      else Failure(InvalidProof)
  }

  method VerifyValidator(H: HashFn, validatorProof: array<Word>, validator: BeaconChainValidator, gIndex: Index,
                         blockRoot: Option<Word>)
    returns (r: Result<bool, OracleError>)
    ensures r == ValidatorVerdict(H, validatorProof[..], validator, gIndex, blockRoot)
    ensures r == Success(true) <==>
      blockRoot.Some? && gIndex >= 1 && validatorProof.Length == Depth(gIndex)
      && Fold(H, validatorProof[..], ValidatorRoot(H, validator), gIndex) == blockRoot.value
  {
    hide Fold, Chunks, HashTreeRoot;
    var validatorRoot := ValidatorHashTreeRoot(H, validator);
    if blockRoot.None? {
      return Failure(RootNotFound);
    }
    var root := Merkle.CalculateMerkleRoot(H, validatorProof, validatorRoot, gIndex);
    if root == Failure(Merkle.Log2Undefined) {
      return Failure(Log2Undefined);
    }
    if root.Failure? || root.value != blockRoot.value {
      return Failure(InvalidProof);
    }
    return Success(true);
  }

  /** The verdict is acceptance of a proof that leads to the block root, or one of three reasons. */
  lemma VerdictReasons(H: HashFn, proof: seq<Word>, v: BeaconChainValidator, gIndex: nat, blockRoot: Option<Word>)
    ensures var r := ValidatorVerdict(H, proof, v, gIndex, blockRoot);
      && (r == Failure(RootNotFound) <==> blockRoot.None?)
      && (r == Failure(Log2Undefined) <==> blockRoot.Some? && gIndex == 0)
      && (r == Success(true) <==> (
            blockRoot.Some? && gIndex >= 1 && |proof| == Depth(gIndex)
            && Fold(H, proof, ValidatorRoot(H, v), gIndex) == blockRoot.value))
      && (r.Success? ==> r.value)
      && (r.Failure? ==> r.error in {RootNotFound, Log2Undefined, InvalidProof})
  {
    hide Fold, Depth, ValidatorRoot;
  }

  /** The labelling of the subtree below node g. */
  function Subtree(tree: Labelling, g: nat): Labelling {
    (k: nat) => tree(ConcatIndex(g, k))
  }

  /** The state tree is consistent down to the eight chunks of the record at gIndex. */
  ghost predicate ConsistentToChunks(H: HashFn, tree: Labelling, gIndex: nat) {
    ConsistentAbove(H, tree, gIndex) && ConsistentDownTo(H, Subtree(tree, gIndex), 8)
  }

  lemma ChunkPosition(g: nat, i: nat)
    requires i < 8
    ensures ConcatIndex(g, 8 + i) == 8 * g + i
  {
    assert ConcatIndex(g, 1) == g;
    assert ConcatIndex(g, (8 + i) / 4) == 2 * g + (8 + i) / 4 % 2;
    assert ConcatIndex(g, (8 + i) / 2) == 2 * ConcatIndex(g, (8 + i) / 4) + (8 + i) / 2 % 2;
  }

  /** The record at node g of a block: its eight fields, in the order of the container. */
  ghost predicate RecordAt(tree: Labelling, g: nat, v: BeaconChainValidator) {
    tree(8 * g) == v.pubkeyRoot &&
    tree(8 * g + 1) == v.withdrawalCredentials &&
    tree(8 * g + 2) == Encode64(v.effectiveBalance) &&
    tree(8 * g + 3) == BoolToLittleEndian(v.slashed) &&
    tree(8 * g + 4) == Encode64(v.activationEligibilityEpoch) &&
    tree(8 * g + 5) == Encode64(v.activationEpoch) &&
    tree(8 * g + 6) == Encode64(v.exitEpoch) &&
    tree(8 * g + 7) == Encode64(v.withdrawableEpoch)
  }

  ghost predicate ChunksAt(tree: Labelling, g: nat, chunks: seq<Word>) {
    forall i :: 0 <= i < |chunks| ==> chunks[i] == tree(8 * g + i)
  }

  lemma FieldOrder(v: BeaconChainValidator)
    ensures Chunks(v) == [
      v.pubkeyRoot, v.withdrawalCredentials, Encode64(v.effectiveBalance), BoolToLittleEndian(v.slashed),
      Encode64(v.activationEligibilityEpoch), Encode64(v.activationEpoch), Encode64(v.exitEpoch),
      Encode64(v.withdrawableEpoch)]
  {
    hide Encode64, BoolToLittleEndian, Chunks;
    ChunksAre(v, [
      v.pubkeyRoot, v.withdrawalCredentials, Encode64(v.effectiveBalance), BoolToLittleEndian(v.slashed),
      Encode64(v.activationEligibilityEpoch), Encode64(v.activationEpoch), Encode64(v.exitEpoch),
      Encode64(v.withdrawableEpoch)]);
  }

  /** The chunks of a record are its fields in order. */
  lemma RecordChunks(tree: Labelling, g: nat, v: BeaconChainValidator)
    ensures ChunksAt(tree, g, Chunks(v)) <==> RecordAt(tree, g, v)
  {
    hide Encode64, BoolToLittleEndian, Chunks, ChunkAt;
    FieldOrder(v);
    EightAt(tree, g, Chunks(v));
  }

  lemma EightAt(tree: Labelling, g: nat, s: seq<Word>)
    requires |s| == 8
    ensures ChunksAt(tree, g, s) <==>
      tree(8 * g) == s[0] && tree(8 * g + 1) == s[1] && tree(8 * g + 2) == s[2] && tree(8 * g + 3) == s[3] &&
      tree(8 * g + 4) == s[4] && tree(8 * g + 5) == s[5] && tree(8 * g + 6) == s[6] && tree(8 * g + 7) == s[7]
  {
    if ChunksAt(tree, g, s) {
      assert s[0] == tree(8 * g + 0) && s[1] == tree(8 * g + 1) && s[2] == tree(8 * g + 2);
      assert s[3] == tree(8 * g + 3) && s[4] == tree(8 * g + 4) && s[5] == tree(8 * g + 5);
      assert s[6] == tree(8 * g + 6) && s[7] == tree(8 * g + 7);
    }
  }

  /**
   End-to-end soundness: a record accepted against the root of a labelling consistent
   down to its chunks is the record of that labelling, field by field, or a collision
   shows on the branch or inside the record.
   */
  lemma ValidatorBinding(H: HashFn, tree: Labelling, proof: seq<Word>, v: BeaconChainValidator, gIndex: nat)
    requires ValidatorVerdict(H, proof, v, gIndex, Some(tree(1))) == Success(true)
    requires ConsistentToChunks(H, tree, gIndex)
    ensures RecordAt(tree, gIndex, v)
         || BranchCollides(H, tree, proof, ValidatorRoot(H, v), gIndex)
         || ChunksCollide(H, Chunks(v), Subtree(tree, gIndex))
  {
    hide Fold, Chunks, Node, Labels, BranchCollides, ChunksCollide, RecordAt;
    var chunks := Chunks(v);
    BranchBinding(H, tree, proof, ValidatorRoot(H, v), gIndex);
    RecordChunks(tree, gIndex, v);
    if !BranchCollides(H, tree, proof, ValidatorRoot(H, v), gIndex)
       && !ChunksCollide(H, chunks, Subtree(tree, gIndex)) {
      assert ConcatIndex(gIndex, 1) == gIndex;
      forall i | 0 <= i < 8
        ensures chunks[i] == tree(8 * gIndex + i)
      {
        RootFixesNode(H, chunks, Subtree(tree, gIndex), 8 + i);
        LeafNode(H, chunks, i);
        ChunkPosition(gIndex, i);
      }
    }
  }

  /** Two records accepted at one index of one block are the same, or a collision shows. */
  lemma AcceptedRecordsEqual(H: HashFn, gIndex: nat, root: Word,
                             proof: seq<Word>, v: BeaconChainValidator, proof': seq<Word>, v': BeaconChainValidator)
    requires ValidatorVerdict(H, proof, v, gIndex, Some(root)) == Success(true)
    requires ValidatorVerdict(H, proof', v', gIndex, Some(root)) == Success(true)
    ensures (v == v' && proof == proof')
         || BranchesCollide(H, proof, ValidatorRoot(H, v), proof', ValidatorRoot(H, v'), gIndex)
         || ChunksCollide(H, Chunks(v), Tree(H, Chunks(v')))
  {
    hide Fold, Chunks, Node, BranchesCollide, ChunksCollide;
    BranchInjective(H, proof, ValidatorRoot(H, v), proof', ValidatorRoot(H, v'), gIndex);
    if ValidatorRoot(H, v) == ValidatorRoot(H, v') {
      ChunksDetermined(H, Chunks(v), Chunks(v'));
      if Chunks(v) == Chunks(v') {
        ChunksInjective(v, v');
      }
    }
  }

  /** A record whose root is at its index is accepted with the true branch. */
  lemma ValidatorComplete(H: HashFn, tree: Labelling, v: BeaconChainValidator, gIndex: nat)
    requires gIndex >= 1 && ConsistentAbove(H, tree, gIndex)
    requires tree(gIndex) == ValidatorRoot(H, v)
    ensures ValidatorVerdict(H, Labels(tree, BranchIndices(gIndex)), v, gIndex, Some(tree(1))) == Success(true)
  {
    BranchComplete(H, tree, gIndex);
    BranchLength(gIndex);
  }

  /** The block's own record, field by field, is accepted with the true branch. */
  lemma RecordComplete(H: HashFn, tree: Labelling, v: BeaconChainValidator, gIndex: nat)
    requires gIndex >= 1 && ConsistentToChunks(H, tree, gIndex) && RecordAt(tree, gIndex, v)
    ensures ValidatorVerdict(H, Labels(tree, BranchIndices(gIndex)), v, gIndex, Some(tree(1))) == Success(true)
  {
    hide Chunks, Node, RecordAt, ValidatorVerdict, Labels, BranchIndices;
    var chunks := Chunks(v);
    RecordChunks(tree, gIndex, v);
    forall i | 0 <= i < 8
      ensures chunks[i] == Subtree(tree, gIndex)(8 + i)
    {
      ChunkPosition(gIndex, i);
    }
    LeavesFixTree(H, chunks, Subtree(tree, gIndex), 1);
    assert ConcatIndex(gIndex, 1) == gIndex;
    ValidatorComplete(H, tree, v, gIndex);
  }

  // ----- a proposer and its fee recipient -----

  function AddressLeaf(a: Address): Word {
    Word((a as bv256) << 96)
  }

  function ClaimLeaves(validatorIndex: bv256, feeRecipient: Address): seq<Word> {
    [LittleEndian(validatorIndex), AddressLeaf(feeRecipient)]
  }

  ghost predicate AcceptsClaim(H: HashFn, indices: seq<nat>, proof: seq<Word>, validatorIndex: bv256,
                               feeRecipient: Address, root: Word) {
    |indices| == 2 && |proof| == |HelperIndices(indices)| &&
    MultiRoot(H, indices, ClaimLeaves(validatorIndex, feeRecipient), proof) == root
  }

  /** The oracle's answer; `left` is the root word left by an earlier verification of the transaction. */
  ghost function ClaimVerdict(H: HashFn, left: Option<Word>, indices: seq<nat>, proof: seq<Word>,
                              validatorIndex: bv256, feeRecipient: Address, blockRoot: Option<Word>)
    : Result<bool, OracleError>
  {
    if |indices| != 2 then Failure(LengthMismatch)
    else
      match blockRoot
      case None => Failure(RootNotFound)
      case Some(root) =>
        if |proof| == |HelperIndices(indices)| &&
           RootRead(H, left, indices, ClaimLeaves(validatorIndex, feeRecipient), proof) == root
        then Success(true) else Failure(InvalidProof)
  }

  method VerifyFeeRecipient(H: HashFn, store: HashMap, indices: array<Index>, proof: array<Word>,
                            validatorIndex: bv256, feeRecipient: Address, blockRoot: Option<Word>)
    returns (r: Result<bool, OracleError>)
    requires store.Valid() && Indexed(store.values) && Leftover(store.values)
    modifies store
    ensures store.Valid() && Indexed(store.values) && Leftover(store.values)
    ensures r == ClaimVerdict(H, old(LeftRoot(store.values)), indices[..], proof[..],
                              validatorIndex, feeRecipient, blockRoot)
    ensures r.Success? && (exists i :: i in indices[..] && i >= 1) ==> LeftRoot(store.values) == blockRoot
  {
    hide LittleEndian, RootRead, HelperIndices;
    if indices.Length != 2 {
      return Failure(LengthMismatch);
    }
    var first := ToLittleEndian(validatorIndex);
    var leaves := new Word[2] [first, AddressLeaf(feeRecipient)];
    assert leaves[..] == ClaimLeaves(validatorIndex, feeRecipient);
    if blockRoot.None? {
      return Failure(RootNotFound);
    }
    var root := Merkle.CalculateMultiMerkleRoot(H, store, proof, leaves, indices);
    if root.Failure? || root.value != blockRoot.value {
      return Failure(InvalidProof);
    }
    return Success(true);
  }

  /**
   A verdict is about the claim exactly when no root word is left over or the root is
   among the indices; otherwise the leftover word alone decides, for every claim.
   */
  lemma LeftoverDecides(H: HashFn, left: Option<Word>, i0: nat, i1: nat, proof: seq<Word>,
                        validatorIndex: bv256, feeRecipient: Address, root: Word)
    requires |proof| == |HelperIndices([i0, i1])|
    ensures ClaimVerdict(H, left, [i0, i1], proof, validatorIndex, feeRecipient, Some(root)) == Success(true) <==>
      if left.Some? && i0 != 1 && i1 != 1 then left == Some(root)
      else AcceptsClaim(H, [i0, i1], proof, validatorIndex, feeRecipient, root)
  {
    hide MultiRoot, HelperIndices, ClaimLeaves;
  }

  /** The verdict on a claim: acceptance, or one of three reasons. */
  lemma ClaimReasons(H: HashFn, left: Option<Word>, indices: seq<nat>, proof: seq<Word>,
                     validatorIndex: bv256, feeRecipient: Address, blockRoot: Option<Word>)
    ensures var r := ClaimVerdict(H, left, indices, proof, validatorIndex, feeRecipient, blockRoot);
      && (r == Failure(LengthMismatch) <==> |indices| != 2)
      && (r == Failure(RootNotFound) <==> |indices| == 2 && blockRoot.None?)
      && (r == Success(true) <==> (
            |indices| == 2 && blockRoot.Some? && |proof| == |HelperIndices(indices)|
            && if left.Some? && 1 !in indices then left == blockRoot
               else AcceptsClaim(H, indices, proof, validatorIndex, feeRecipient, blockRoot.value)))
      && (r.Success? ==> r.value)
      && (r.Failure? ==> r.error in {LengthMismatch, RootNotFound, InvalidProof})
  {
    hide MultiRoot, HelperIndices, ClaimLeaves;
  }

  lemma ClaimLeavesInjective(validatorIndex: bv256, feeRecipient: Address, validatorIndex': bv256,
                             feeRecipient': Address)
    requires ClaimLeaves(validatorIndex, feeRecipient) == ClaimLeaves(validatorIndex', feeRecipient')
    ensures validatorIndex == validatorIndex' && feeRecipient == feeRecipient'
  {
    hide LittleEndian;
    var s, t := ClaimLeaves(validatorIndex, feeRecipient), ClaimLeaves(validatorIndex', feeRecipient');
    assert s[0] == t[0] && s[1] == t[1];
    EncodingInjective(validatorIndex, validatorIndex');
  }

  /** Of two submitted indices, the one for the proposer counts: in the tree, not overwritten, not covered. */
  predicate ProposerCounts(i0: nat, i1: nat) {
    i0 >= 1 && i0 != i1 && !StrictAncestor(i1, i0)
  }

  predicate RecipientCounts(i0: nat, i1: nat) {
    i1 >= 1 && !StrictAncestor(i0, i1)
  }

  lemma CountsIsEffective(i0: nat, i1: nat)
    ensures Effective([i0, i1], 0) <==> ProposerCounts(i0, i1)
    ensures Effective([i0, i1], 1) <==> RecipientCounts(i0, i1)
  {
    hide Covers;
    var indices := [i0, i1];
    assert indices[1..] == [i1] && indices[2..] == [];
    assert i0 in indices && i1 in indices;
  }

  /** The collision that two different claims accepted at one place of one block would show. */
  ghost predicate ClaimsCollide(H: HashFn, indices: seq<nat>, n: nat,
                                proof: seq<Word>, validatorIndex: bv256, feeRecipient: Address,
                                proof': seq<Word>, validatorIndex': bv256, feeRecipient': Address)
    requires |indices| == 2 && |proof| == |proof'| == |HelperIndices(indices)| && n < 2
  {
    CollidesAbove(H, Seed(indices, ClaimLeaves(validatorIndex, feeRecipient), proof),
                  RunLabels(H, Seed(indices, ClaimLeaves(validatorIndex', feeRecipient'), proof')), indices[n])
  }

  /**
   Claims accepted at the same two places of one block name the same proposer if its
   index counts, and the same fee recipient if that one's does.
   */
  lemma AcceptedClaimsEqual(H: HashFn, i0: Index, i1: Index, root: Word,
                            proof: seq<Word>, validatorIndex: bv256, feeRecipient: Address,
                            proof': seq<Word>, validatorIndex': bv256, feeRecipient': Address)
    requires AcceptsClaim(H, [i0, i1], proof, validatorIndex, feeRecipient, root)
    requires AcceptsClaim(H, [i0, i1], proof', validatorIndex', feeRecipient', root)
    ensures ProposerCounts(i0, i1) ==> (
      validatorIndex == validatorIndex'
      || ClaimsCollide(H, [i0, i1], 0, proof, validatorIndex, feeRecipient, proof', validatorIndex', feeRecipient'))
    ensures RecipientCounts(i0, i1) ==> (
      feeRecipient == feeRecipient'
      || ClaimsCollide(H, [i0, i1], 1, proof, validatorIndex, feeRecipient, proof', validatorIndex', feeRecipient'))
  {
    hide MultiRoot, HelperIndices, Seed, CollidesAbove, ProposerCounts, RecipientCounts, Effective;
    hide LittleEndian, AddressLeaf;
    var leaves, leaves' := ClaimLeaves(validatorIndex, feeRecipient), ClaimLeaves(validatorIndex', feeRecipient');
    CountsIsEffective(i0, i1);
    if ProposerCounts(i0, i1) {
      LeafInjective(H, [i0, i1], leaves, proof, leaves', proof', 0);
      if leaves[0] == leaves'[0] {
        EncodingInjective(validatorIndex, validatorIndex');
      }
    }
    if RecipientCounts(i0, i1) {
      LeafInjective(H, [i0, i1], leaves, proof, leaves', proof', 1);
      if leaves[1] == leaves'[1] {
        AddressLeafInjective(feeRecipient, feeRecipient');
      }
    }
  }

  /** An address fills the first 20 bytes of its leaf; the other twelve are zero. */
  lemma AddressLeafBytes(a: Address)
    ensures (AddressLeaf(a).bits >> 96) as Address == a
    ensures AddressLeaf(a).bits & 0xffffffffffffffffffffffff == 0
  {
  }

  lemma AddressLeafInjective(a: Address, b: Address)
    requires AddressLeaf(a) == AddressLeaf(b)
    ensures a == b
  {
  }

  /** Exactly when the proposer's index does not count, every other proposer is accepted with the same proof. */
  lemma ProposerUnbound(H: HashFn, i0: nat, i1: nat, root: Word, proof: seq<Word>,
                        validatorIndex: bv256, feeRecipient: Address, validatorIndex': bv256)
    requires !ProposerCounts(i0, i1)
    requires AcceptsClaim(H, [i0, i1], proof, validatorIndex, feeRecipient, root)
    ensures AcceptsClaim(H, [i0, i1], proof, validatorIndex', feeRecipient, root)
  {
    hide MultiRoot, HelperIndices, ProposerCounts, RecipientCounts, Effective, LittleEndian, AddressLeaf;
    var leaves := ClaimLeaves(validatorIndex, feeRecipient);
    CountsIsEffective(i0, i1);
    IneffectiveLeaf(H, [i0, i1], leaves, proof, 0, LittleEndian(validatorIndex'));
    assert leaves[0 := LittleEndian(validatorIndex')] == ClaimLeaves(validatorIndex', feeRecipient);
  }

  /** Likewise for the fee recipient. */
  lemma RecipientUnbound(H: HashFn, i0: nat, i1: nat, root: Word, proof: seq<Word>,
                         validatorIndex: bv256, feeRecipient: Address, feeRecipient': Address)
    requires !RecipientCounts(i0, i1)
    requires AcceptsClaim(H, [i0, i1], proof, validatorIndex, feeRecipient, root)
    ensures AcceptsClaim(H, [i0, i1], proof, validatorIndex, feeRecipient', root)
  {
    hide MultiRoot, HelperIndices, ProposerCounts, RecipientCounts, Effective, LittleEndian, AddressLeaf;
    var leaves := ClaimLeaves(validatorIndex, feeRecipient);
    CountsIsEffective(i0, i1);
    IneffectiveLeaf(H, [i0, i1], leaves, proof, 1, AddressLeaf(feeRecipient'));
    assert leaves[1 := AddressLeaf(feeRecipient')] == ClaimLeaves(validatorIndex, feeRecipient');
  }

  /** Repeated, zero and nested indices leave the proposer open. */
  lemma UnboundProposers(H: HashFn, g: nat, pair: seq<nat>, root: Word, proof: seq<Word>,
                         validatorIndex: bv256, feeRecipient: Address, validatorIndex': bv256)
    requires g >= 1 && (pair == [g, g] || pair == [0, g] || pair == [2 * g, g])
    requires AcceptsClaim(H, pair, proof, validatorIndex, feeRecipient, root)
    ensures AcceptsClaim(H, pair, proof, validatorIndex', feeRecipient, root)
  {
    hide AcceptsClaim;
    assert Covers(g, g) && Covers(g, 2 * g);
    ProposerUnbound(H, pair[0], pair[1], root, proof, validatorIndex, feeRecipient, validatorIndex');
  }

  /** Over antichain indices the proof is determined as well. */
  lemma AcceptedProofsEqual(H: HashFn, indices: seq<nat>, root: Word,
                            proof: seq<Word>, validatorIndex: bv256, feeRecipient: Address,
                            proof': seq<Word>, validatorIndex': bv256, feeRecipient': Address)
    requires InTree(indices) && Antichain(indices)
    requires AcceptsClaim(H, indices, proof, validatorIndex, feeRecipient, root)
    requires AcceptsClaim(H, indices, proof', validatorIndex', feeRecipient', root)
    ensures (validatorIndex == validatorIndex' && feeRecipient == feeRecipient' && proof == proof')
         || MultiCollides(H, RunLabels(H, Seed(indices, ClaimLeaves(validatorIndex', feeRecipient'), proof')), indices,
                          Seed(indices, ClaimLeaves(validatorIndex, feeRecipient), proof))
  {
    hide MultiRoot, HelperIndices, Seed, MultiCollides;
    var leaves, leaves' := ClaimLeaves(validatorIndex, feeRecipient), ClaimLeaves(validatorIndex', feeRecipient');
    MultiproofInjective(H, indices, leaves, proof, leaves', proof');
    if leaves == leaves' {
      ClaimLeavesInjective(validatorIndex, feeRecipient, validatorIndex', feeRecipient');
    }
  }

  // ----- pure checks -----

  /** None is the checked subtraction underflowing before genesis. */
  function GetEpoch(timestamp: nat): Option<nat> {
    if timestamp < BEACON_GENESIS then None else Some((timestamp - BEACON_GENESIS) / SECONDS_PER_EPOCH)
  }

  function IsActiveValidator(v: BeaconChainValidator, timestamp: nat): Option<bool> {
    match GetEpoch(timestamp)
    case None => None
    case Some(epoch) => Some(v.activationEpoch as nat <= epoch && v.exitEpoch as nat > epoch)
  }

  /** BLS credentials (leading byte zero) are refused; the address is the low 160 bits. */
  function WithdrawalToAddress(withdrawal: Word): Result<Address, OracleError> {
    if withdrawal.bits >> 248 == 0 then Failure(InvalidWithdrawalAddr)
    else Success(LowAddress(withdrawal.bits))
  }

  // The first second of an epoch of 384 seconds.
  function EpochStart(epoch: nat): nat {
    1606824000 + epoch * 384
  }

  /** From the first second of the activation epoch to the last before the exit epoch. */
  predicate ActiveAt(v: BeaconChainValidator, timestamp: nat) {
    EpochStart(v.activationEpoch as nat) <= timestamp < EpochStart(v.exitEpoch as nat)
  }

  /** A record is active exactly in that interval; before genesis there is no answer. */
  lemma ActiveInterval(v: BeaconChainValidator, timestamp: nat)
    ensures IsActiveValidator(v, timestamp).None? <==> timestamp < 1606824000
    ensures IsActiveValidator(v, timestamp) == Some(true) <==> ActiveAt(v, timestamp)
  {
    if timestamp >= BEACON_GENESIS {
      EpochReached(v.activationEpoch as nat, timestamp);
      EpochReached(v.exitEpoch as nat, timestamp);
    }
  }

  lemma EpochReached(epoch: nat, timestamp: nat)
    requires timestamp >= BEACON_GENESIS
    ensures epoch <= (timestamp - BEACON_GENESIS) / SECONDS_PER_EPOCH <==> EpochStart(epoch) <= timestamp
  {
  }

  /** A credentials word from its high 96 bits, the topmost eight of them the type, and its low 160 bits. */
  function Credentials(high: bv96, a: Address): bv256 {
    ((high as bv256) << 160) | (a as bv256)
  }

  function HighBits(w: bv256): bv96 {
    (w >> 160) as bv96
  }

  function LowAddress(w: bv256): Address {
    (w & 0xffffffffffffffffffffffffffffffffffffffff) as Address
  }

  lemma CredentialsPrefix(high: bv96, a: Address)
    ensures Credentials(high, a) >> 248 == 0 <==> high >> 88 == 0
  {
  }

  lemma CredentialsLow(high: bv96, a: Address)
    ensures LowAddress(Credentials(high, a)) == a
  {
  }

  /** Every 32-byte word is such a pair. */
  lemma CredentialsSplit(w: bv256)
    ensures w == Credentials(HighBits(w), LowAddress(w))
  {
  }

  /** Credentials of any type but BLS give back the address in their low bytes, whatever stands between. */
  lemma CredentialsAddress(w: Word, high: bv96, a: Address)
    requires w.bits == Credentials(high, a)
    ensures WithdrawalToAddress(w) == if high >> 88 == 0 then Failure(InvalidWithdrawalAddr) else Success(a)
    ensures w.bits == Credentials(HighBits(w.bits), LowAddress(w.bits))
  {
    hide Credentials, LowAddress, HighBits;
    CredentialsPrefix(high, a);
    CredentialsLow(high, a);
    CredentialsSplit(w.bits);
  }
}
