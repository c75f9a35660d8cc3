/** The repository's proof checkers compared with one another. */
module Verifiers {
  import opened Bits
  import opened MerkleTree
  import opened Multiproof
  import Oracle = BeaconOracle
  import opened Wrappers
  import A = Arrays
  import Merkle
  import SSZ

  /** The consuming checker says true exactly when the calculator returns the root, and they reject the same inputs. */
  method BranchCheckersAgree(H: HashFn, proof: array<A.Word>, root: A.Word, leaf: A.Word, index: A.Index)
    returns (checked: Result<bool, SSZ.BranchError>, computed: Result<A.Word, Merkle.MerkleError>)
    ensures checked == Success(true) <==> computed == Success(root)
    ensures checked.Failure? <==> computed.Failure?
  {
    hide Fold, Depth;
    checked := SSZ.VerifyProof(H, proof, root, leaf, index);
    computed := Merkle.CalculateMerkleRoot(H, proof, leaf, index);
  }

  /**
   One leaf through the multiproof calculator, on an empty map, and through the branch
   calculator. They part on index 0, which lies in no tree: the second refuses it, the
   first reads an unset root slot.
   */
  method CalculatorsAgree(H: HashFn, store: A.HashMap, proof: array<A.Word>, leaf: A.Word, index: A.Index)
    returns (multi: Result<A.Word, Merkle.MerkleError>, single: Result<A.Word, Merkle.MerkleError>)
    requires store.Valid() && store.values == map[]
    modifies store
    ensures index >= 1 ==> multi == single
    ensures index == 0 ==> single == Failure(Merkle.Log2Undefined)
    ensures index == 0 ==> multi == if proof.Length == 0 then Success(A.ZERO) else Failure(Merkle.InvalidProof)
  {
    hide Fold, Depth, MultiRoot, HelperIndices;
    var leaves := new A.Word[1];
    leaves[0] := leaf;
    var indices := new A.Index[1];
    indices[0] := index;
    assert leaves[..] == [leaf] && indices[..] == [index];
    multi := Merkle.CalculateMultiMerkleRoot(H, store, proof, leaves, indices);
    single := Merkle.CalculateMerkleRoot(H, proof, leaf, index);
    if index >= 1 {
      SingleEqualsMulti(H, index, leaf, proof[..]);
    } else {
      ZeroAlone(H, leaf, proof[..]);
    }
  }

  lemma ZeroAlone(H: HashFn, leaf: A.Word, proof: seq<A.Word>)
    ensures HelperIndices([0]) == []
    ensures proof == [] ==> MultiRoot(H, [0], [leaf], proof) == A.ZERO
  {
    hide Eval, HelperIndices;
    SingleHelpers(0);
    if proof == [] {
      RootSetIff(H, [0], [leaf], proof);
    }
  }

  /**
   Two fee recipient claims in one transaction, against one block root. Once a claim with
   an index in the tree is accepted, a later one at two indices other than 1 is accepted
   exactly when it has the right number of proof words, whatever it claims.
   */
  method ClaimsInOneTransaction(H: HashFn, store: A.HashMap, blockRoot: Option<A.Word>,
                                indices: array<A.Index>, proof: array<A.Word>,
                                proposer: bv256, recipient: Oracle.Address,
                                indices': array<A.Index>, proof': array<A.Word>,
                                proposer': bv256, recipient': Oracle.Address)
    returns (first: Result<bool, Oracle.OracleError>, second: Result<bool, Oracle.OracleError>)
    requires store.Valid() && Indexed(store.values) && Leftover(store.values)
    modifies store
    ensures first == Success(true) ==> blockRoot.Some?
    ensures first == Success(true) && (exists i :: i in indices[..] && i >= 1) && indices'.Length == 2 ==> (
      second == Success(true) <==>
        if 1 in indices'[..]
        then Oracle.AcceptsClaim(H, indices'[..], proof'[..], proposer', recipient', blockRoot.value)
        else proof'.Length == |HelperIndices(indices'[..])|)
  {
    hide MultiRoot, HelperIndices, Oracle.ClaimLeaves;
    first := Oracle.VerifyFeeRecipient(H, store, indices, proof, proposer, recipient, blockRoot);
    second := Oracle.VerifyFeeRecipient(H, store, indices', proof', proposer', recipient', blockRoot);
  }
}
