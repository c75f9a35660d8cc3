/** The container hashing and proof checking of `SSZ.sol` and `BeaconOracle.sol`. */
module SSZ {
  import opened Bits
  import opened Gindices
  import opened MerkleTree
  import opened Wrappers
  import A = Arrays

  type Word = A.Word

  datatype BranchError = BranchHasMissingItem | BranchHasExtraItem

  /**
   Consumes the index bit by bit while items remain. It accepts the proof lengths that
   the length check against the logarithm accepts, and then compares the same root.
   */
  method VerifyProof(H: HashFn, proof: array<Word>, root: Word, leaf: Word, index: A.Index)
    returns (isValid: Result<bool, BranchError>)
    ensures isValid ==
      if index >= 1 && proof.Length == Depth(index) then Success(Fold(H, proof[..], leaf, index) == root)
      else if proof.Length > Depth(index) then Failure(BranchHasExtraItem)
      else Failure(BranchHasMissingItem)
  {
    hide Fold, Combine, Depth, Shr;
    var node, rest := leaf, index as nat;
    var i := 0;
    ShrZero(index);
    assert proof[0..] == proof[..];
    while i < proof.Length
      invariant 0 <= i <= proof.Length
      invariant rest == Shr(index, i)
      invariant i <= Depth(index)
      invariant Fold(H, proof[i..], node, rest) == Fold(H, proof[..], leaf, index)
    {
      var scratch := rest % 2;
      FoldStep(H, proof[i..], node, rest);
      ShrStep(index, i);
      RestDepth(index, i);
      CombineSides(H, rest, node, proof[i]);
      assert proof[i..][1..] == proof[i + 1..];
      rest := rest / 2;
      if rest == 0 {
        return Failure(BranchHasExtraItem);
      }
      node := if scratch == 1 then H(proof[i], node) else H(node, proof[i]);
      i := i + 1;
    }
    FoldNothing(H, node, rest);
    assert proof[i..] == [];
    RestDepth(index, i);
    if rest != 1 {
      return Failure(BranchHasMissingItem);
    }
    return Success(node == root);
  }

  lemma CombineSides(H: HashFn, index: nat, node: Word, sibling: Word)
    ensures Combine(H, index, node, sibling) == if index % 2 == 1 then H(sibling, node) else H(node, sibling)
  {
  }

  /** While bits remain above the last one, the index is not yet consumed. */
  lemma RestDepth(index: nat, i: nat)
    requires i <= Depth(index)
    ensures Shr(index, i) / 2 == 0 <==> i == Depth(index)
    ensures index > 0 ==> Shr(index, i) > 0
    ensures index == 0 ==> Shr(index, i) == 0
  {
    ShrDepth(index, i);
    DepthStep(Shr(index, i));
  }

  // ----- hashing a list of chunks in place -----

  /** Node k of the tree whose leaves are the chunks, |chunks| .. 2|chunks| - 1. */
  function Node(H: HashFn, chunks: seq<Word>, k: nat): Word
    decreases 2 * |chunks| - k
  {
    if k >= 2 * |chunks| || k == 0 then A.ZERO
    else if k >= |chunks| then chunks[k - |chunks|]
    else H(Node(H, chunks, 2 * k), Node(H, chunks, 2 * k + 1))
  }

  function Tree(H: HashFn, chunks: seq<Word>): Labelling {
    (k: nat) => Node(H, chunks, k)
  }

  /** The Merkle root of the chunks. */
  function HashTreeRoot(H: HashFn, chunks: seq<Word>): Word {
    Node(H, chunks, 1)
  }

  /** Adjacent chunks hashed together: the tree without its lowest level. */
  function Level(H: HashFn, chunks: seq<Word>): (level: seq<Word>)
    requires |chunks| % 2 == 0
    ensures |level| == |chunks| / 2
  {
    seq(|chunks| / 2, j requires 0 <= j < |chunks| / 2 => H(chunks[2 * j], chunks[2 * j + 1]))
  }

  /** Hashing one level keeps every node above the leaves. */
  lemma {:induction false} LevelKeepsNodes(H: HashFn, chunks: seq<Word>, k: nat)
    requires |chunks| % 2 == 0 && 1 <= k < |chunks|
    ensures Node(H, Level(H, chunks), k) == Node(H, chunks, k)
    decreases |chunks| - k
  {
    var n := |chunks| / 2;
    if k >= n {
      assert Node(H, chunks, 2 * k) == chunks[2 * (k - n)];
      assert Node(H, chunks, 2 * k + 1) == chunks[2 * (k - n) + 1];
    } else {
      LevelKeepsNodes(H, chunks, 2 * k);
      LevelKeepsNodes(H, chunks, 2 * k + 1);
    }
  }

  /** The labelling of a chunk list is consistent above every node. */
  lemma TreeConsistent(H: HashFn, chunks: seq<Word>, k: nat)
    requires k < 2 * |chunks|
    ensures ConsistentAbove(H, Tree(H, chunks), k)
  {
    forall a | StrictAncestor(a, k)
      ensures ConsistentAt(H, Tree(H, chunks), a)
    {
      var c := ChildOnPath(a, k);
      CoversBelow(c, k);
    }
  }

  /** Every chunk, and every inner node, is provable against the root at its own index. */
  lemma ChunkBranch(H: HashFn, chunks: seq<Word>, k: nat)
    requires 1 <= k < 2 * |chunks|
    ensures Fold(H, Labels(Tree(H, chunks), BranchIndices(k)), Node(H, chunks, k), k) == HashTreeRoot(H, chunks)
  {
    TreeConsistent(H, chunks, k);
    BranchComplete(H, Tree(H, chunks), k);
  }

  /** At some node above the leaves the chunk tree's children collide with the labels. */
  ghost predicate ChunksCollide(H: HashFn, chunks: seq<Word>, tree: Labelling) {
    exists a :: 1 <= a < |chunks| && ChunksCollideAt(H, chunks, tree, a)
  }

  predicate ChunksCollideAt(H: HashFn, chunks: seq<Word>, tree: Labelling, a: nat) {
    Collision(H, Children(Tree(H, chunks), a), Children(tree, a))
  }

  ghost predicate ConsistentDownTo(H: HashFn, tree: Labelling, width: nat) {
    forall a :: 1 <= a < width ==> ConsistentAt(H, tree, a)
  }

  /** The root fixes every node of a labelling of the same shape, up to collisions. */
  lemma {:induction false} RootFixesNode(H: HashFn, chunks: seq<Word>, tree: Labelling, k: nat)
    requires 1 <= k < 2 * |chunks|
    requires ConsistentDownTo(H, tree, |chunks|)
    requires HashTreeRoot(H, chunks) == tree(1)
    requires !ChunksCollide(H, chunks, tree)
    ensures Node(H, chunks, k) == tree(k)
  {
    hide Node;
    if k >= 2 {
      var a := k / 2;
      RootFixesNode(H, chunks, tree, a);
      InnerNode(H, chunks, a);
      assert ConsistentAt(H, tree, a);
      assert !ChunksCollideAt(H, chunks, tree, a);
      assert k == 2 * a || k == 2 * a + 1;
    }
  }

  /** A labelling with the chunks as its leaves has the chunk tree's words throughout. */
  lemma {:induction false} LeavesFixTree(H: HashFn, chunks: seq<Word>, tree: Labelling, k: nat)
    requires 1 <= k < 2 * |chunks|
    requires ConsistentDownTo(H, tree, |chunks|)
    requires forall i :: 0 <= i < |chunks| ==> chunks[i] == tree(|chunks| + i)
    ensures Node(H, chunks, k) == tree(k)
    decreases 2 * |chunks| - k
  {
    hide Node;
    if k >= |chunks| {
      LeafNode(H, chunks, k - |chunks|);
    } else {
      InnerNode(H, chunks, k);
      LeavesFixTree(H, chunks, tree, 2 * k);
      LeavesFixTree(H, chunks, tree, 2 * k + 1);
      assert ConsistentAt(H, tree, k);
    }
  }

  lemma InnerNode(H: HashFn, chunks: seq<Word>, a: nat)
    requires 1 <= a < |chunks|
    ensures Node(H, chunks, a) == H(Node(H, chunks, 2 * a), Node(H, chunks, 2 * a + 1))
  {
  }

  lemma LeafNode(H: HashFn, chunks: seq<Word>, i: nat)
    requires i < |chunks|
    ensures Node(H, chunks, |chunks| + i) == chunks[i]
  {
  }

  lemma TreeDownTo(H: HashFn, chunks: seq<Word>)
    ensures ConsistentDownTo(H, Tree(H, chunks), |chunks|)
  {
  }

  /** Chunk lists of one length with one root are equal, up to collisions. */
  lemma ChunksDetermined(H: HashFn, chunks: seq<Word>, chunks': seq<Word>)
    requires |chunks| == |chunks'| > 0
    requires HashTreeRoot(H, chunks) == HashTreeRoot(H, chunks')
    ensures chunks == chunks' || ChunksCollide(H, chunks, Tree(H, chunks'))
  {
    hide Node;
    TreeDownTo(H, chunks');
    if !ChunksCollide(H, chunks, Tree(H, chunks')) {
      forall i | 0 <= i < |chunks|
        ensures chunks[i] == chunks'[i]
      {
        RootFixesNode(H, chunks, Tree(H, chunks'), |chunks| + i);
        LeafNode(H, chunks, i);
        LeafNode(H, chunks', i);
      }
    }
  }

  /**
   Level by level in the array itself: writes trail the reads, so each pass leaves the
   next level in the first half.
   */
  method HashInPlace(H: HashFn, nodes: array<Word>, depth: nat) returns (root: Word)
    requires depth >= 1 && nodes.Length == Pow2(depth)
    modifies nodes
    ensures root == HashTreeRoot(H, old(nodes[..]))
  {
    hide Node, Pow2;
    ghost var chunks := nodes[..];
    ghost var left := depth;
    var count := nodes.Length;
    Pow2Step(depth - 1);
    assert nodes[..count] == chunks;
    while true
      invariant 1 <= left <= depth && 2 <= count == Pow2(left) <= nodes.Length
      invariant HashTreeRoot(H, nodes[..count]) == HashTreeRoot(H, chunks)
      decreases left
    {
      Pow2Step(left - 1);
      ghost var level := nodes[..count];
      LevelKeepsNodes(H, level, 1);
      var last := HashLevel(H, nodes, count);
      count := count / 2;
      left := left - 1;
      if count == 1 {
        SingleChunk(H, nodes[..count]);
        return last;
      }
      LargerThanOne(left);
    }
  }

  lemma SingleChunk(H: HashFn, chunks: seq<Word>)
    requires |chunks| == 1
    ensures HashTreeRoot(H, chunks) == chunks[0]
  {
  }

  lemma LargerThanOne(n: nat)
    requires Pow2(n) != 1
    ensures n >= 1 && Pow2(n) >= 2
  {
  }

  /** One pass over the level: target runs behind source in the same memory. */
  method HashLevel(H: HashFn, nodes: array<Word>, count: nat) returns (last: Word)
    requires 2 <= count <= nodes.Length && count % 2 == 0
    modifies nodes
    ensures nodes[..count / 2] == Level(H, old(nodes[..count]))
    ensures last == nodes[count / 2 - 1]
  {
    hide Level;
    ghost var level := nodes[..count];
    var target, source := 0, 0;
    last := A.ZERO;
    while true
      invariant source == 2 * target && source < count
      invariant Passed(H, level, nodes[..count], target)
      decreases count - source
    {
      ghost var before := nodes[..count];
      last := H(nodes[source], nodes[source + 1]);
      nodes[target] := last;
      assert nodes[..count] == before[target := H(before[source], before[source + 1])];
      PassedStep(H, level, before, target);
      target := target + 1;
      source := source + 2;
      if source >= count {
        break;
      }
    }
    assert nodes[..count][..target] == nodes[..target];
    assert Level(H, level)[..target] == Level(H, level);
  }

  /** Up to target the words are the next level's, and from twice that on still the old ones. */
  ghost predicate Passed(H: HashFn, level: seq<Word>, words: seq<Word>, target: nat) {
    |words| == |level| && |level| % 2 == 0 && 2 * target <= |level| &&
    words[..target] == Level(H, level)[..target] && words[2 * target..] == level[2 * target..]
  }

  lemma PassedStep(H: HashFn, level: seq<Word>, words: seq<Word>, target: nat)
    requires Passed(H, level, words, target) && 2 * target + 1 < |words|
    ensures Passed(H, level, words[target := H(words[2 * target], words[2 * target + 1])], target + 1)
  {
    var after := words[target := H(words[2 * target], words[2 * target + 1])];
    assert words[2 * target] == words[2 * target..][0] == level[2 * target];
    assert words[2 * target + 1] == words[2 * target..][1] == level[2 * target + 1];
    assert after[target] == Level(H, level)[target];
    assert after[..target + 1] == words[..target] + [after[target]];
    assert Level(H, level)[..target + 1] == Level(H, level)[..target] + [Level(H, level)[target]];
    assert after[2 * target + 2..] == words[2 * target..][2..];
  }
}
