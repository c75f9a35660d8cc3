/**
 Ideal binary Merkle trees: a labelling gives every node its word, and a node is
 consistent when its label hashes its children's. The pair hash is a parameter, and
 no property of it is assumed: where a root is said to bind the data below it, the
 alternative is a collision between two explicitly named pairs.
 */
module MerkleTree {
  import opened Bits
  import opened Gindices
  import opened Arrays
  import opened Wrappers

  type HashFn = (Word, Word) -> Word
  type Labelling = nat -> Word

  predicate ConsistentAt(H: HashFn, tree: Labelling, k: nat) {
    tree(k) == HashPair(H, Children(tree, k))
  }

  ghost predicate ConsistentAbove(H: HashFn, tree: Labelling, k: nat) {
    forall a :: StrictAncestor(a, k) ==> ConsistentAt(H, tree, a)
  }

  type Pair = (Word, Word)

  function HashPair(H: HashFn, p: Pair): Word {
    H(p.0, p.1)
  }

  /** The labels of the children of node k. */
  function Children(tree: Labelling, k: nat): Pair {
    (tree(2 * k), tree(2 * k + 1))
  }

  /** Two different pairs with the same hash. */
  predicate Collision(H: HashFn, p: Pair, q: Pair) {
    p != q && HashPair(H, p) == HashPair(H, q)
  }

  lemma ParentIsAncestor(k: nat)
    requires k >= 2
    ensures StrictAncestor(k / 2, k)
  {
    assert Covers(k / 2, k / 2);
  }

  lemma AboveParent(k: nat)
    requires k >= 2
    ensures forall a :: StrictAncestor(a, k / 2) ==> StrictAncestor(a, k)
  {
  }

  // ----- one branch -----

  /** A node's word and its sibling's, left one first. */
  function Siblings(index: nat, node: Word, sibling: Word): Pair {
    if index % 2 == 1 then (sibling, node) else (node, sibling)
  }

  function Combine(H: HashFn, index: nat, node: Word, sibling: Word): Word {
    HashPair(H, Siblings(index, node, sibling))
  }

  /** The root that a branch proof leads to from a leaf at a generalized index. */
  function Fold(H: HashFn, proof: seq<Word>, leaf: Word, index: nat): Word {
    if proof == [] then leaf
    else Fold(H, proof[1..], Combine(H, index, leaf, proof[0]), index / 2)
  }

  function Labels(tree: Labelling, nodes: seq<nat>): (words: seq<Word>)
    ensures |words| == |nodes|
  {
    seq(|nodes|, i requires 0 <= i < |nodes| => tree(nodes[i]))
  }

  /** The siblings met on the way from a node to the root. */
  function BranchIndices(index: nat): seq<nat> {
    if index < 2 then [] else [Sibling(index)] + BranchIndices(index / 2)
  }

  /** The nodes met on the way from a node to the root, the root left out. */
  function PathIndices(index: nat): seq<nat> {
    if index < 2 then [] else [index] + PathIndices(index / 2)
  }

  lemma {:induction false} BranchLength(index: nat)
    ensures |BranchIndices(index)| == Depth(index)
  {
    if index >= 2 {
      BranchLength(index / 2);
    }
  }

  lemma {:induction false} BranchAt(index: nat, n: nat)
    requires n < Depth(index)
    ensures |BranchIndices(index)| == Depth(index)
    ensures BranchIndices(index)[n] == Sibling(Shr(index, n))
  {
    BranchLength(index);
    if n > 0 {
      BranchAt(index / 2, n - 1);
    }
  }

  lemma BranchLabels(tree: Labelling, index: nat)
    requires index >= 2
    ensures Labels(tree, BranchIndices(index)) == [tree(Sibling(index))] + Labels(tree, BranchIndices(index / 2))
  {
  }

  /** The true branch of a consistent labelling leads to its root. */
  lemma {:induction false} BranchComplete(H: HashFn, tree: Labelling, index: nat)
    requires index >= 1 && ConsistentAbove(H, tree, index)
    ensures Fold(H, Labels(tree, BranchIndices(index)), tree(index), index) == tree(1)
  {
    hide Siblings, HashPair, Children, Labels, Covers;
    if index < 2 {
      assert Labels(tree, BranchIndices(index)) == [];
    } else {
      BranchLabels(tree, index);
      ChildrenOfParent(tree, index);
      ParentIsAncestor(index);
      assert ConsistentAt(H, tree, index / 2);
      AboveParent(index);
      BranchComplete(H, tree, index / 2);
    }
  }

  lemma ChildrenOfParent(tree: Labelling, index: nat)
    ensures Children(tree, index / 2) == Siblings(index, tree(index), tree(Sibling(index)))
  {
  }

  lemma SiblingsInjective(index: nat, node: Word, sibling: Word, node': Word, sibling': Word)
    ensures Siblings(index, node, sibling) == Siblings(index, node', sibling') <==> node == node' && sibling == sibling'
  {
  }

  /** Some pair hashed on the branch collides with the label's pair at that node. */
  predicate BranchCollides(H: HashFn, tree: Labelling, proof: seq<Word>, leaf: Word, index: nat) {
    proof != [] && (
      Collision(H, Siblings(index, leaf, proof[0]), Children(tree, index / 2))
      || BranchCollides(H, tree, proof[1..], Combine(H, index, leaf, proof[0]), index / 2))
  }

  /** A branch that leads to the root carries the true leaf and siblings, or collides. */
  lemma {:induction false} BranchBinding(H: HashFn, tree: Labelling, proof: seq<Word>, leaf: Word, index: nat)
    requires index >= 1 && |proof| == Depth(index)
    requires ConsistentAbove(H, tree, index)
    requires Fold(H, proof, leaf, index) == tree(1)
    ensures (leaf == tree(index) && proof == Labels(tree, BranchIndices(index)))
         || BranchCollides(H, tree, proof, leaf, index)
  {
    hide Siblings, HashPair, Children, Labels, Covers;
    if index < 2 {
      assert proof == [] == Labels(tree, BranchIndices(index));
    } else {
      ParentIsAncestor(index);
      assert ConsistentAt(H, tree, index / 2);
      AboveParent(index);
      var node := Combine(H, index, leaf, proof[0]);
      BranchBinding(H, tree, proof[1..], node, index / 2);
      ChildrenOfParent(tree, index);
      BranchLabels(tree, index);
      SiblingsInjective(index, leaf, proof[0], tree(index), tree(Sibling(index)));
      assert proof == [proof[0]] + proof[1..];
    }
  }

  /** Some pair hashed on one branch collides with the pair of the other at its level. */
  predicate BranchesCollide(H: HashFn, proof: seq<Word>, leaf: Word, proof': seq<Word>, leaf': Word, index: nat) {
    proof != [] && proof' != [] && (
      Collision(H, Siblings(index, leaf, proof[0]), Siblings(index, leaf', proof'[0]))
      || BranchesCollide(H, proof[1..], Combine(H, index, leaf, proof[0]),
                         proof'[1..], Combine(H, index, leaf', proof'[0]), index / 2))
  }

  /** The root of a branch is injective in the leaf and the proof, up to collisions. */
  lemma {:induction false} BranchInjective(H: HashFn, proof: seq<Word>, leaf: Word, proof': seq<Word>,
                                           leaf': Word, index: nat)
    requires |proof| == |proof'|
    requires Fold(H, proof, leaf, index) == Fold(H, proof', leaf', index)
    ensures (leaf == leaf' && proof == proof') || BranchesCollide(H, proof, leaf, proof', leaf', index)
    decreases |proof|
  {
    if proof != [] {
      hide Siblings;
      var node, node' := Combine(H, index, leaf, proof[0]), Combine(H, index, leaf', proof'[0]);
      BranchInjective(H, proof[1..], node, proof'[1..], node', index / 2);
      SiblingsInjective(index, leaf, proof[0], leaf', proof'[0]);
      assert proof == [proof[0]] + proof[1..] && proof' == [proof'[0]] + proof'[1..];
    }
  }

  lemma CombineParity(H: HashFn, i: nat, j: nat, node: Word, sibling: Word)
    requires i % 2 == j % 2
    ensures Combine(H, i, node, sibling) == Combine(H, j, node, sibling)
  {
  }

  /** Proving within a subtree and then the subtree's root is one proof at the joint index. */
  lemma {:induction false} BranchComposition(H: HashFn, below: seq<Word>, above: seq<Word>, leaf: Word, a: nat, b: nat)
    requires b >= 1 && |below| == Depth(b)
    ensures Fold(H, below + above, leaf, ConcatIndex(a, b)) == Fold(H, above, Fold(H, below, leaf, b), a)
    decreases b
  {
    hide Combine, Depth;
    DepthStep(b);
    if b < 2 {
      assert below + above == above;
    } else {
      assert (below + above)[1..] == below[1..] + above;
      CombineParity(H, ConcatIndex(a, b), b, leaf, below[0]);
      BranchComposition(H, below[1..], above, Combine(H, b, leaf, below[0]), a, b / 2);
    }
  }

  lemma FoldStep(H: HashFn, proof: seq<Word>, leaf: Word, index: nat)
    requires proof != []
    ensures Fold(H, proof, leaf, index) == Fold(H, proof[1..], Combine(H, index, leaf, proof[0]), index / 2)
  {
  }

  lemma FoldNothing(H: HashFn, leaf: Word, index: nat)
    ensures Fold(H, [], leaf, index) == leaf
  {
  }

  lemma {:induction false} FoldLast(H: HashFn, proof: seq<Word>, leaf: Word, index: nat, n: nat)
    requires n < |proof|
    ensures Fold(H, proof[..n + 1], leaf, index)
         == Combine(H, Shr(index, n), Fold(H, proof[..n], leaf, index), proof[n])
    decreases n
  {
    hide Combine, Shr;
    var node := Combine(H, index, leaf, proof[0]);
    assert proof[..n + 1][1..] == proof[1..][..n];
    if n > 0 {
      assert proof[..n][1..] == proof[1..][..n - 1];
      ShrHalf(index, n);
      FoldLast(H, proof[1..], node, index / 2, n - 1);
    } else {
      ShrZero(index);
    }
  }

  // ----- partial trees -----

  /**
   The word of node k in the tree grown from the known words m: a known word, or the
   hash of the words of both children. Known nodes are 256-bit indices.
   */
  function Eval(H: HashFn, m: map<nat, Word>, k: nat): Option<Word>
    decreases TWO_256 - k
  {
    if k in m then Some(m[k])
    else if k == 0 || 2 * k + 1 >= TWO_256 then None
    else
      match (Eval(H, m, 2 * k), Eval(H, m, 2 * k + 1))
      case (Some(l), Some(r)) => Some(H(l, r))
      case _ => None
  }

  lemma EvalKnown(H: HashFn, m: map<nat, Word>, k: nat)
    requires k in m
    ensures Eval(H, m, k) == Some(m[k])
  {
  }

  lemma EvalStep(H: HashFn, m: map<nat, Word>, k: nat)
    requires k !in m
    ensures Eval(H, m, k) ==
      if k == 0 || 2 * k + 1 >= TWO_256 || Eval(H, m, 2 * k).None? || Eval(H, m, 2 * k + 1).None? then None
      else Some(H(Eval(H, m, 2 * k).value, Eval(H, m, 2 * k + 1).value))
  {
  }

  ghost predicate Indexed(m: map<nat, Word>) {
    forall k :: k in m ==> k < TWO_256
  }

  predicate ClosedAt(H: HashFn, m: map<nat, Word>, M: map<nat, Word>, k: nat) {
    if k in m then k in M && M[k] == m[k]
    else k >= 1 && 2 * k in M && 2 * k + 1 in M ==> k in M && M[k] == H(M[2 * k], M[2 * k + 1])
  }

  predicate DerivedAt(H: HashFn, m: map<nat, Word>, M: map<nat, Word>, k: nat) {
    k in M && k !in m ==> k >= 1 && 2 * k in M && 2 * k + 1 in M && M[k] == H(M[2 * k], M[2 * k + 1])
  }

  /** M extends m and gives a word to every node both of whose children have one. */
  ghost predicate Closed(H: HashFn, m: map<nat, Word>, M: map<nat, Word>) {
    forall k: nat :: ClosedAt(H, m, M, k)
  }

  /** Every word of M beyond m is the hash of its children's words. */
  ghost predicate Derived(H: HashFn, m: map<nat, Word>, M: map<nat, Word>) {
    forall k: nat :: DerivedAt(H, m, M, k)
  }

  /** M is the smallest map that contains m and is closed under hashing siblings. */
  ghost predicate LeastClosure(H: HashFn, m: map<nat, Word>, M: map<nat, Word>) {
    Closed(H, m, M) && (forall M': map<nat, Word> :: Closed(H, m, M') ==> Included(M, M'))
  }

  ghost predicate Included(M: map<nat, Word>, M': map<nat, Word>) {
    forall k :: k in M ==> k in M' && M'[k] == M[k]
  }

  /** A derived word is in every closed map. */
  lemma {:induction false} DerivedInClosed(H: HashFn, m: map<nat, Word>, M: map<nat, Word>, M': map<nat, Word>, k: nat)
    requires Derived(H, m, M) && Closed(H, m, M') && Indexed(M)
    requires Closed(H, m, M)
    requires k in M
    ensures k in M' && M'[k] == M[k]
    decreases TWO_256 - k
  {
    assert ClosedAt(H, m, M, k) && ClosedAt(H, m, M', k) && DerivedAt(H, m, M, k);
    if k !in m {
      DerivedInClosed(H, m, M, M', 2 * k);
      DerivedInClosed(H, m, M, M', 2 * k + 1);
    }
  }

  lemma ClosureIsLeast(H: HashFn, m: map<nat, Word>, M: map<nat, Word>)
    requires Closed(H, m, M) && Derived(H, m, M) && Indexed(M)
    ensures LeastClosure(H, m, M)
  {
    forall M': map<nat, Word>, k | Closed(H, m, M') && k in M
      ensures k in M' && M'[k] == M[k]
    {
      DerivedInClosed(H, m, M, M', k);
    }
  }

  lemma LeastClosureUnique(H: HashFn, m: map<nat, Word>, M: map<nat, Word>, M': map<nat, Word>)
    requires LeastClosure(H, m, M) && LeastClosure(H, m, M')
    ensures M == M'
  {
    assert Included(M, M') && Included(M', M);
  }

  /** The closure holds exactly the words that evaluation from the root side finds. */
  lemma {:induction false} ClosureIsEval(H: HashFn, m: map<nat, Word>, M: map<nat, Word>, k: nat)
    requires Closed(H, m, M) && Derived(H, m, M) && Indexed(M)
    ensures Eval(H, m, k) == if k in M then Some(M[k]) else None
    decreases TWO_256 - k
  {
    hide Eval;
    assert ClosedAt(H, m, M, k) && DerivedAt(H, m, M, k);
    if k in m {
      EvalKnown(H, m, k);
    } else {
      EvalStep(H, m, k);
      if k != 0 && 2 * k + 1 < TWO_256 {
        ClosureIsEval(H, m, M, 2 * k);
        ClosureIsEval(H, m, M, 2 * k + 1);
      }
    }
  }

  /** At some strict ancestor of k the evaluated children collide with the labels. */
  ghost predicate CollidesAbove(H: HashFn, m: map<nat, Word>, tree: Labelling, k: nat) {
    exists a :: StrictAncestor(a, k) && CollidesAt(H, m, tree, a)
  }

  predicate CollidesAt(H: HashFn, m: map<nat, Word>, tree: Labelling, a: nat) {
    match (Eval(H, m, 2 * a), Eval(H, m, 2 * a + 1))
    case (Some(l), Some(r)) => Collision(H, (l, r), Children(tree, a))
    case _ => false
  }

  /**
   If the evaluated root is the labelled one, every node none of whose strict
   ancestors is a known node evaluates to its tree, or a collision is exhibited.
   */
  lemma {:induction false} NodeBinding(H: HashFn, m: map<nat, Word>, tree: Labelling, k: nat)
    requires k >= 1 && ConsistentAbove(H, tree, k)
    requires Eval(H, m, 1) == Some(tree(1))
    requires forall a :: StrictAncestor(a, k) ==> a !in m
    ensures Eval(H, m, k) == Some(tree(k)) || CollidesAbove(H, m, tree, k)
  {
    hide Eval;
    if k >= 2 {
      var a := k / 2;
      ParentIsAncestor(k);
      AboveParent(k);
      NodeBinding(H, m, tree, a);
      if Eval(H, m, a) == Some(tree(a)) {
        EvalStep(H, m, a);
        assert ConsistentAt(H, tree, a);
        if CollidesAt(H, m, tree, a) {
          assert CollidesAbove(H, m, tree, k);
        }
        assert k == 2 * a || k == 2 * a + 1;
      } else {
        var b :| StrictAncestor(b, a) && CollidesAt(H, m, tree, b);
        assert StrictAncestor(b, k);
      }
    }
  }

  /** A known node below another known node has no influence outside that subtree. */
  lemma {:induction false} ShadowedNode(H: HashFn, m: map<nat, Word>, a: nat, k: nat, w: Word, x: nat)
    requires a in m && k in m && StrictAncestor(a, k)
    requires x != k && !StrictAncestor(a, x)
    ensures Eval(H, m[k := w], x) == Eval(H, m, x)
    decreases TWO_256 - x
  {
    hide Eval;
    if x in m {
      EvalKnown(H, m, x);
      EvalKnown(H, m[k := w], x);
    } else {
      EvalStep(H, m, x);
      EvalStep(H, m[k := w], x);
    }
    if x !in m && x != 0 && 2 * x + 1 < TWO_256 {
      NotBelow(a, x);
      ShadowedNode(H, m, a, k, w, 2 * x);
      ShadowedNode(H, m, a, k, w, 2 * x + 1);
    }
  }

  predicate SameAt(m: map<nat, Word>, m': map<nat, Word>, k: nat) {
    if k in m then k in m' && m'[k] == m[k] else k !in m'
  }

  /** Only nodes of the tree count: node 0 is not one. */
  lemma {:induction false} EvalAgrees(H: HashFn, m: map<nat, Word>, m': map<nat, Word>, x: nat)
    requires x >= 1 && forall k: nat :: k >= 1 ==> SameAt(m, m', k)
    ensures Eval(H, m, x) == Eval(H, m', x)
    decreases TWO_256 - x
  {
    hide Eval;
    assert SameAt(m, m', x);
    if x in m {
      EvalKnown(H, m, x);
      EvalKnown(H, m', x);
    } else {
      EvalStep(H, m, x);
      EvalStep(H, m', x);
      if 2 * x + 1 < TWO_256 {
        EvalAgrees(H, m, m', 2 * x);
        EvalAgrees(H, m, m', 2 * x + 1);
      }
    }
  }

  lemma NotBelow(a: nat, x: nat)
    requires a >= 1 && x >= 1 && a != x && !StrictAncestor(a, x)
    ensures !StrictAncestor(a, 2 * x) && !StrictAncestor(a, 2 * x + 1)
  {
    assert (2 * x) / 2 == x && (2 * x + 1) / 2 == x;
    if Covers(a, x) {
      CoversBelow(a, x);
    }
  }
}
