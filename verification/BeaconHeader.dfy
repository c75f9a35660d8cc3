/** Block headers, and the way from a validator record up to a header's root. */
module BeaconHeader {
  import opened Bits
  import opened BitTricks
  import opened Arrays
  import opened Encoding
  import opened Gindices
  import opened MerkleTree
  import opened SSZ

  datatype BeaconBlockHeader = BeaconBlockHeader(
    slot: bv64,
    proposerIndex: bv64,
    parentRoot: Word,
    stateRoot: Word,
    bodyRoot: Word)

  /** The five fields, padded to eight chunks. */
  function HeaderChunks(h: BeaconBlockHeader): seq<Word> {
    [Encode64(h.slot), Encode64(h.proposerIndex), h.parentRoot, h.stateRoot, h.bodyRoot, ZERO, ZERO, ZERO]
  }

  method BeaconHeaderHashTreeRoot(H: HashFn, header: BeaconBlockHeader) returns (root: Word)
    ensures root == HashTreeRoot(H, HeaderChunks(header))
  {
    hide Encode64, LittleEndian, HashTreeRoot, Pow2;
    var slot := ToLittleEndian(header.slot as bv256);
    var proposerIndex := ToLittleEndian(header.proposerIndex as bv256);
    EncodedAs(header.slot);
    EncodedAs(header.proposerIndex);
    var nodes := new Word[8] [
      slot, proposerIndex, header.parentRoot, header.stateRoot, header.bodyRoot, ZERO, ZERO, ZERO];
    assert nodes[..] == HeaderChunks(header);
    EightIsPow2();
    root := HashInPlace(H, nodes, 3);
  }

  /** The places of a header's fields, from index 8 on, and the padding. */
  ghost predicate HeaderAt(tree: Labelling, h: BeaconBlockHeader) {
    tree(8) == Encode64(h.slot) && tree(9) == Encode64(h.proposerIndex) &&
    tree(10) == h.parentRoot && tree(11) == h.stateRoot && tree(12) == h.bodyRoot &&
    tree(13) == tree(14) == tree(15) == ZERO
  }

  lemma HeaderPlaces(H: HashFn, h: BeaconBlockHeader)
    ensures HeaderAt(Tree(H, HeaderChunks(h)), h)
  {
    hide Encode64, LittleEndian, Node;
    var chunks := HeaderChunks(h);
    LeafNode(H, chunks, 0);
    LeafNode(H, chunks, 1);
    LeafNode(H, chunks, 2);
    LeafNode(H, chunks, 3);
    LeafNode(H, chunks, 4);
    LeafNode(H, chunks, 5);
    LeafNode(H, chunks, 6);
    LeafNode(H, chunks, 7);
  }

  /** Every field is provable against the header's root at its place. */
  lemma HeaderGindices(H: HashFn, h: BeaconBlockHeader, k: nat)
    requires 8 <= k < 16
    ensures var tree := Tree(H, HeaderChunks(h));
      HeaderAt(tree, h) && Fold(H, Labels(tree, BranchIndices(k)), tree(k), k) == HashTreeRoot(H, HeaderChunks(h))
  {
    hide Encode64, Fold, Node, Labels, BranchIndices, HeaderAt;
    HeaderPlaces(H, h);
    ChunkBranch(H, HeaderChunks(h), k);
  }

  /**
   A proof within the registry, then the registry in the state, then the state in the
   header: one proof at the index the pool computes for validator v.
   */
  lemma ValidatorPath(H: HashFn, v: nat, leaf: Word, registry: seq<Word>, state: seq<Word>, header: seq<Word>)
    requires v < Pow2(40)
    requires |registry| == 41 && |state| == 5 && |header| == 3
    ensures Fold(H, registry + state + header, leaf, ZERO_VALIDATOR_INDEX + v)
         == Fold(H, header, Fold(H, state, Fold(H, registry, leaf, Pow2(41) + v), 43), 11)
    ensures |registry + state + header| == Depth(ZERO_VALIDATOR_INDEX + v)
  {
    hide Fold, Depth, Pow2, ConcatAll, ConcatIndex;
    var w := Pow2(41) + v;
    LeafPow2();
    DepthUnique(w, 41);
    DepthOfRegistry();
    JointPath(v);
    ConcatLast([11, 43], w);
    ConcatLast([11], 43);
    ConcatOne(11);
    assert [11] + [43] == [11, 43] && [11, 43] + [w] == [11, 43, w];
    assert registry + state + header == registry + (state + header);
    BranchComposition(H, registry, state + header, leaf, ConcatIndex(11, 43), w);
    BranchComposition(H, state, header, Fold(H, registry, leaf, w), 11, 43);
  }

  lemma DepthOfRegistry()
    ensures Depth(43) == 5
  {
  }
}
