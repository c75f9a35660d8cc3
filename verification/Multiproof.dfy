/**
 Merkle multiproofs: which nodes a set of generalized indices needs as helpers, and
 what the root reached from leaves and helpers says about them.
 */
module Multiproof {
  import opened Bits
  import opened Gindices
  import opened Arrays
  import opened MerkleTree
  import opened Wrappers

  /** Node a is one of the indices or an ancestor of one. */
  ghost predicate Reaches(indices: seq<nat>, a: nat) {
    exists i :: i in indices && Covers(a, i)
  }

  function AllBranches(indices: seq<nat>): seq<nat> {
    if indices == [] then []
    else AllBranches(indices[..|indices| - 1]) + BranchIndices(indices[|indices| - 1])
  }

  function AllPaths(indices: seq<nat>): seq<nat> {
    if indices == [] then []
    else AllPaths(indices[..|indices| - 1]) + PathIndices(indices[|indices| - 1])
  }

  /** The nodes that hang off the paths to the indices. */
  ghost function HelperSet(indices: seq<nat>): set<nat> {
    set x | x in AllBranches(indices) && x !in AllPaths(indices)
  }

  ghost function MaxOf(s: set<nat>): (m: nat)
    requires s != {}
    ensures m in s && forall x :: x in s ==> x <= m
  {
    var x :| x in s;
    if s == {x} then x
    else
      var y := MaxOf(s - {x});
      assert s == {x} + (s - {x});
      if x > y then x else y
  }

  lemma AddLargest(m: nat, rest: seq<nat>)
    requires StrictlyDecreasing(rest) && forall x :: x in Elements(rest) ==> x < m
    ensures StrictlyDecreasing([m] + rest)
    ensures Elements([m] + rest) == {m} + Elements(rest)
  {
    assert forall i :: 0 <= i < |rest| ==> rest[i] in Elements(rest);
  }

  /** The elements of a set, largest first. */
  ghost function Descending(s: set<nat>): (list: seq<nat>)
    ensures StrictlyDecreasing(list)
    ensures Elements(list) == s
  {
    if s == {} then []
    else
      var m := MaxOf(s);
      var rest := Descending(s - {m});
      AddLargest(m, rest);
      [m] + rest
  }

  ghost function HelperIndices(indices: seq<nat>): seq<nat> {
    Descending(HelperSet(indices))
  }

  // ----- branches, paths and helpers as sets -----

  lemma {:induction false} InBranch(index: nat, x: nat)
    ensures x in BranchIndices(index) <==> x >= 2 && Covers(Sibling(x), index)
  {
    hide Covers, Sibling;
    SiblingInvolution(x);
    SiblingInvolution(index);
    if index >= 2 {
      InBranch(index / 2, x);
      CoversStep(Sibling(x), index);
    } else {
      if x >= 2 {
        SmallCovers(Sibling(x), index);
      }
    }
  }

  lemma SmallCovers(a: nat, index: nat)
    requires a >= 2 && index < 2
    ensures !Covers(a, index)
  {
  }

  lemma {:induction false} InPath(index: nat, x: nat)
    ensures x in PathIndices(index) <==> x >= 2 && Covers(x, index)
  {
    hide Covers;
    if index >= 2 {
      InPath(index / 2, x);
      CoversStep(x, index);
    } else if x >= 2 {
      SmallCovers(x, index);
    }
  }

  lemma {:induction false} InAllBranches(indices: seq<nat>, x: nat)
    ensures x in AllBranches(indices) <==> x >= 2 && Reaches(indices, Sibling(x))
  {
    if indices != [] {
      var init, last := indices[..|indices| - 1], indices[|indices| - 1];
      InAllBranches(init, x);
      InBranch(last, x);
      assert forall i :: i in indices <==> i in init || i == last;
    }
  }

  lemma {:induction false} InAllPaths(indices: seq<nat>, x: nat)
    ensures x in AllPaths(indices) <==> x >= 2 && Reaches(indices, x)
  {
    if indices != [] {
      var init, last := indices[..|indices| - 1], indices[|indices| - 1];
      InAllPaths(init, x);
      InPath(last, x);
      assert forall i :: i in indices <==> i in init || i == last;
    }
  }

  /** A helper is a node off every path whose sibling is on one. */
  lemma HelperCharacterization(indices: seq<nat>, x: nat)
    ensures x in HelperSet(indices) <==> x >= 2 && Reaches(indices, Sibling(x)) && !Reaches(indices, x)
  {
    InAllBranches(indices, x);
    InAllPaths(indices, x);
  }

  ghost predicate Member(indices: seq<nat>, x: nat) {
    x in indices || x in HelperSet(indices)
  }

  /** None of the indices is an ancestor of another. */
  ghost predicate Antichain(indices: seq<nat>) {
    forall i, j :: i in indices && j in indices ==> !StrictAncestor(i, j)
  }

  lemma AncestorOfMemberReaches(indices: seq<nat>, a: nat, y: nat)
    requires Member(indices, y) && StrictAncestor(a, y)
    ensures exists i :: i in indices && StrictAncestor(a, i)
    ensures Reaches(indices, a)
  {
    if y !in indices {
      HelperCharacterization(indices, y);
      var i :| i in indices && Covers(Sibling(y), i);
      StrictAncestorOfSibling(a, y);
      CoversTransitive(a, Sibling(y), i);
      CoversBelow(Sibling(y), i);
      assert StrictAncestor(a, i);
    }
  }

  /** Cut theorem, first half: no member of leaves and helpers lies below another. */
  lemma MembersAntichain(indices: seq<nat>, x: nat, y: nat)
    requires Antichain(indices) && Member(indices, x) && Member(indices, y)
    ensures !StrictAncestor(x, y)
  {
    if StrictAncestor(x, y) {
      AncestorOfMemberReaches(indices, x, y);
      HelperCharacterization(indices, x);
    }
  }

  /** Cut theorem, second half: the members cut the tree off below their ancestors. */
  lemma MembersCut(indices: seq<nat>, a: nat, y: nat, c: nat)
    requires Member(indices, y) && StrictAncestor(a, y) && (c == 2 * a || c == 2 * a + 1)
    ensures Member(indices, c) || exists z :: Member(indices, z) && StrictAncestor(c, z)
  {
    AncestorOfMemberReaches(indices, a, y);
    var i :| i in indices && StrictAncestor(a, i);
    var d := ChildOnPath(a, i);
    assert Reaches(indices, d);
    if Reaches(indices, c) {
      ReachedNode(indices, c);
    } else {
      assert c == Sibling(d) && Sibling(c) == d;
      HelperCharacterization(indices, c);
    }
  }

  lemma ReachedNode(indices: seq<nat>, c: nat)
    requires c >= 1 && Reaches(indices, c)
    ensures c in indices || exists z :: Member(indices, z) && StrictAncestor(c, z)
  {
    var i :| i in indices && Covers(c, i);
    if c != i {
      CoversBelow(c, i);
      assert Member(indices, i) && StrictAncestor(c, i);
    }
  }

  // ----- the words a proof puts into the tree -----

  /** m overwritten with values[0] at keys[0], then values[1] at keys[1], and so on. */
  function SetAll(m: map<nat, Word>, keys: seq<nat>, values: seq<Word>): map<nat, Word>
    requires |keys| == |values|
  {
    if keys == [] then m
    else SetAll(m, keys[..|keys| - 1], values[..|keys| - 1])[keys[|keys| - 1] := values[|keys| - 1]]
  }

  lemma {:induction false} SetAllKeys(m: map<nat, Word>, keys: seq<nat>, values: seq<Word>)
    requires |keys| == |values|
    ensures forall k :: k in SetAll(m, keys, values) <==> k in m || k in keys
    ensures forall k :: k !in keys && k in m ==> SetAll(m, keys, values)[k] == m[k]
  {
    if keys != [] {
      SetAllKeys(m, keys[..|keys| - 1], values[..|keys| - 1]);
      assert forall k :: k in keys <==> k in keys[..|keys| - 1] || k == keys[|keys| - 1];
    }
  }

  /** The last write to a key is the one that stays. */
  lemma {:induction false} SetAllAt(m: map<nat, Word>, keys: seq<nat>, values: seq<Word>, i: nat)
    requires |keys| == |values| && i < |keys| && keys[i] !in keys[i + 1..]
    ensures keys[i] in SetAll(m, keys, values) && SetAll(m, keys, values)[keys[i]] == values[i]
  {
    var last := |keys| - 1;
    if i < last {
      assert keys[..last][i + 1..] == keys[i + 1..][..last - i - 1];
      assert keys[last] == keys[i + 1..][last - i - 1];
      SetAllAt(m, keys[..last], values[..last], i);
    }
  }

  /** What was in the map before matters only at keys that are not written. */
  lemma {:induction false} SetAllAgrees(m: map<nat, Word>, m': map<nat, Word>, keys: seq<nat>,
                                        values: seq<Word>, k: nat)
    requires |keys| == |values| && (k in keys || SameAt(m, m', k))
    ensures SameAt(SetAll(m, keys, values), SetAll(m', keys, values), k)
  {
    if keys != [] && k != keys[|keys| - 1] {
      SetAllAgrees(m, m', keys[..|keys| - 1], values[..|keys| - 1], k);
    }
  }

  /** Helpers first, then leaves. */
  ghost function Seed(indices: seq<nat>, leaves: seq<Word>, proof: seq<Word>): map<nat, Word>
    requires |leaves| == |indices| && |proof| == |HelperIndices(indices)|
  {
    SeedOver(map[], indices, leaves, proof)
  }

  /** The same on top of words that an earlier verification left in the map. */
  ghost function SeedOver(base: map<nat, Word>, indices: seq<nat>, leaves: seq<Word>, proof: seq<Word>): map<nat, Word>
    requires |leaves| == |indices| && |proof| == |HelperIndices(indices)|
  {
    SetAll(SetAll(base, HelperIndices(indices), proof), indices, leaves)
  }

  /** What the multiproof computes: the evaluated root, or the zero word of an unset slot. */
  ghost function MultiRoot(H: HashFn, indices: seq<nat>, leaves: seq<Word>, proof: seq<Word>): Word
    requires |leaves| == |indices| && |proof| == |HelperIndices(indices)|
  {
    match Eval(H, Seed(indices, leaves, proof), 1)
    case Some(root) => root
    case None => ZERO
  }

  /**
   What is read from the root slot when an earlier verification of the same transaction
   left a word there: that word, unless the root itself is among the indices.
   */
  ghost function RootRead(H: HashFn, left: Option<Word>, indices: seq<nat>, leaves: seq<Word>, proof: seq<Word>): Word
    requires |leaves| == |indices| && |proof| == |HelperIndices(indices)|
  {
    if left.Some? && 1 !in indices then left.value else MultiRoot(H, indices, leaves, proof)
  }

  /**
   The map as verifications of one transaction leave it: without a node of the tree, or
   with the root set.
   */
  predicate Leftover(values: map<nat, Word>) {
    1 in values || values.Keys <= {0}
  }

  function LeftRoot(values: map<nat, Word>): Option<Word> {
    if 1 in values then Some(values[1]) else None
  }

  lemma SeedKeys(indices: seq<nat>, leaves: seq<Word>, proof: seq<Word>)
    requires |leaves| == |indices| && |proof| == |HelperIndices(indices)|
    ensures forall k :: k in Seed(indices, leaves, proof) <==> Member(indices, k)
  {
    var helpers := HelperIndices(indices);
    SetAllKeys(map[], helpers, proof);
    SetAllKeys(SetAll(map[], helpers, proof), indices, leaves);
    assert forall k :: k in helpers <==> k in Elements(helpers);
  }

  lemma SeedLeaf(indices: seq<nat>, leaves: seq<Word>, proof: seq<Word>, i: nat)
    requires |leaves| == |indices| && |proof| == |HelperIndices(indices)|
    requires i < |indices| && indices[i] !in indices[i + 1..]
    ensures Member(indices, indices[i])
    ensures indices[i] in Seed(indices, leaves, proof)
    ensures Seed(indices, leaves, proof)[indices[i]] == leaves[i]
  {
    SetAllAt(SetAll(map[], HelperIndices(indices), proof), indices, leaves, i);
  }

  lemma SeedHelper(indices: seq<nat>, leaves: seq<Word>, proof: seq<Word>, i: nat)
    requires |leaves| == |indices| && |proof| == |HelperIndices(indices)|
    requires i < |HelperIndices(indices)|
    ensures Member(indices, HelperIndices(indices)[i]) && HelperIndices(indices)[i] !in indices
    ensures HelperIndices(indices)[i] in Seed(indices, leaves, proof)
    ensures Seed(indices, leaves, proof)[HelperIndices(indices)[i]] == proof[i]
  {
    var helpers := HelperIndices(indices);
    var x := helpers[i];
    assert x in Elements(helpers) && x !in helpers[i + 1..];
    HelperCharacterization(indices, x);
    assert x !in indices by {
      if x in indices {
        assert Covers(x, x);
        assert Reaches(indices, x);
      }
    }
    SetAllAt(map[], helpers, proof, i);
    SetAllKeys(SetAll(map[], helpers, proof), indices, leaves);
  }

  // ----- completeness -----

  ghost predicate TrueWords(m: map<nat, Word>, tree: Labelling) {
    forall k :: k in m ==> m[k] == tree(k)
  }

  ghost predicate AllIndexed(indices: seq<nat>) {
    forall i :: i in indices ==> i < TWO_256
  }

  ghost predicate ConsistentAboveAll(H: HashFn, tree: Labelling, indices: seq<nat>) {
    forall i :: i in indices ==> ConsistentAbove(H, tree, i)
  }

  /** The seed of the evaluation has exactly the members as its known nodes. */
  ghost predicate Seeded(indices: seq<nat>, m: map<nat, Word>) {
    AllIndexed(indices) && forall x :: x in m <==> Member(indices, x)
  }

  /** Every node on a path gets a word; true words yield its label. */
  lemma {:induction false} PathsEvaluate(H: HashFn, tree: Labelling, indices: seq<nat>, m: map<nat, Word>, k: nat)
    requires Seeded(indices, m)
    requires k >= 1 && Reaches(indices, k)
    ensures Eval(H, m, k).Some?
    ensures TrueWords(m, tree) && ConsistentAboveAll(H, tree, indices) ==> Eval(H, m, k).value == tree(k)
    decreases TWO_256 - k, 0
  {
    hide Eval, Covers, HelperSet, Sibling;
    if k in m {
      EvalKnown(H, m, k);
    } else {
      var i :| i in indices && Covers(k, i);
      assert Member(indices, i);
      CoversBelow(k, i);
      var c := ChildOnPath(k, i);
      CoversBelow(c, i);
      ChildPair(k, c);
      assert Reaches(indices, c);
      PathsEvaluate(H, tree, indices, m, c);
      OffPathEvaluates(H, tree, indices, m, c);
      EvalStep(H, m, k);
      if ConsistentAboveAll(H, tree, indices) {
        assert ConsistentAbove(H, tree, i);
        assert ConsistentAt(H, tree, k);
      }
    }
  }

  lemma ChildPair(k: nat, c: nat)
    requires c / 2 == k >= 1
    ensures (c == 2 * k && Sibling(c) == 2 * k + 1) || (c == 2 * k + 1 && Sibling(c) == 2 * k)
  {
  }

  lemma {:induction false} OffPathEvaluates(H: HashFn, tree: Labelling, indices: seq<nat>, m: map<nat, Word>, c: nat)
    requires Seeded(indices, m)
    requires c >= 2 && Reaches(indices, c)
    ensures Sibling(c) < TWO_256
    ensures Eval(H, m, Sibling(c)).Some?
    ensures TrueWords(m, tree) && ConsistentAboveAll(H, tree, indices) ==>
      Eval(H, m, Sibling(c)).value == tree(Sibling(c))
    decreases TWO_256 - c / 2 - 1, 1
  {
    hide Eval, Covers, HelperSet, Sibling;
    var s := Sibling(c);
    var i :| i in indices && Covers(c, i);
    CoversBelow(c, i);
    SiblingInvolution(c);
    ChildPair(c / 2, c);
    if Reaches(indices, s) {
      PathsEvaluate(H, tree, indices, m, s);
    } else {
      HelperCharacterization(indices, s);
      EvalKnown(H, m, s);
    }
  }

  lemma {:induction false} SetAllTrue(tree: Labelling, m: map<nat, Word>, keys: seq<nat>)
    requires TrueWords(m, tree)
    ensures TrueWords(SetAll(m, keys, Labels(tree, keys)), tree)
  {
    if keys != [] {
      SetAllTrue(tree, m, keys[..|keys| - 1]);
      assert Labels(tree, keys)[..|keys| - 1] == Labels(tree, keys[..|keys| - 1]);
    }
  }

  lemma RootReached(indices: seq<nat>, i: nat)
    requires i in indices && i >= 1
    ensures Reaches(indices, 1)
  {
    RootCovers(i);
  }

  /** Completeness: the true words at the indices and helpers lead to the true root. */
  lemma MultiproofComplete(H: HashFn, tree: Labelling, indices: seq<nat>)
    requires AllIndexed(indices) && (exists i :: i in indices && i >= 1)
    requires ConsistentAboveAll(H, tree, indices)
    ensures MultiRoot(H, indices, Labels(tree, indices), Labels(tree, HelperIndices(indices))) == tree(1)
  {
    var i :| i in indices && i >= 1;
    var helpers := HelperIndices(indices);
    SetAllTrue(tree, map[], helpers);
    SetAllTrue(tree, SetAll(map[], helpers, Labels(tree, helpers)), indices);
    SeedKeys(indices, Labels(tree, indices), Labels(tree, helpers));
    RootReached(indices, i);
    PathsEvaluate(H, tree, indices, Seed(indices, Labels(tree, indices), Labels(tree, helpers)), 1);
  }

  lemma {:induction false} EvalNeedsKnown(H: HashFn, m: map<nat, Word>, k: nat)
    requires k >= 1 && Eval(H, m, k).Some?
    ensures exists x :: x in m && x >= 1
    decreases TWO_256 - k
  {
    if k !in m {
      EvalNeedsKnown(H, m, 2 * k);
    }
  }

  /** The root slot is set exactly when some index lies in the tree at all. */
  lemma RootSetIff(H: HashFn, indices: seq<nat>, leaves: seq<Word>, proof: seq<Word>)
    requires AllIndexed(indices)
    requires |leaves| == |indices| && |proof| == |HelperIndices(indices)|
    ensures Eval(H, Seed(indices, leaves, proof), 1).Some? <==> exists i :: i in indices && i >= 1
  {
    var m := Seed(indices, leaves, proof);
    SeedKeys(indices, leaves, proof);
    if i :| i in indices && i >= 1 {
      RootReached(indices, i);
      PathsEvaluate(H, k => ZERO, indices, m, 1);
    } else if Eval(H, m, 1).Some? {
      EvalNeedsKnown(H, m, 1);
      var x :| x in m && x >= 1;
      HelperCharacterization(indices, x);
      var i :| i in indices && Covers(Sibling(x), i);
      CoversBelow(Sibling(x), i);
    }
  }

  // ----- on top of words left by an earlier verification -----

  lemma OverKeys(base: map<nat, Word>, indices: seq<nat>, leaves: seq<Word>, proof: seq<Word>)
    requires |leaves| == |indices| && |proof| == |HelperIndices(indices)|
    ensures forall k :: k in SeedOver(base, indices, leaves, proof) <==> k in base || Member(indices, k)
  {
    var helpers := HelperIndices(indices);
    SetAllKeys(base, helpers, proof);
    SetAllKeys(SetAll(base, helpers, proof), indices, leaves);
    assert forall k :: k in helpers <==> k in Elements(helpers);
  }

  /** Without leftover nodes the evaluation is that of the submission alone. */
  lemma OverNothing(H: HashFn, base: map<nat, Word>, indices: seq<nat>, leaves: seq<Word>, proof: seq<Word>)
    requires base.Keys <= {0} && |leaves| == |indices| && |proof| == |HelperIndices(indices)|
    ensures Eval(H, SeedOver(base, indices, leaves, proof), 1) == Eval(H, Seed(indices, leaves, proof), 1)
  {
    hide Eval, HelperIndices;
    var helpers := HelperIndices(indices);
    forall k: nat | k >= 1
      ensures SameAt(Seed(indices, leaves, proof), SeedOver(base, indices, leaves, proof), k)
    {
      SetAllAgrees(map[], base, helpers, proof, k);
      SetAllAgrees(SetAll(map[], helpers, proof), SetAll(base, helpers, proof), indices, leaves, k);
    }
    EvalAgrees(H, Seed(indices, leaves, proof), SeedOver(base, indices, leaves, proof), 1);
  }

  /** A root word that is already there stays, unless a leaf is written over it. */
  lemma OverRoot(H: HashFn, base: map<nat, Word>, indices: seq<nat>, leaves: seq<Word>, proof: seq<Word>)
    requires 1 in base && |leaves| == |indices| && |proof| == |HelperIndices(indices)|
    ensures 1 in SeedOver(base, indices, leaves, proof)
    ensures SeedOver(base, indices, leaves, proof)[1] == RootRead(H, Some(base[1]), indices, leaves, proof)
  {
    hide HelperSet, Eval;
    var helpers := HelperIndices(indices);
    SetAllKeys(base, helpers, proof);
    SetAllKeys(SetAll(base, helpers, proof), indices, leaves);
    if 1 in indices {
      SetAllAgrees(SetAll(map[], helpers, proof), SetAll(base, helpers, proof), indices, leaves, 1);
      SetAllKeys(SetAll(map[], helpers, proof), indices, leaves);
      EvalKnown(H, Seed(indices, leaves, proof), 1);
    } else {
      HelperCharacterization(indices, 1);
      assert 1 !in Elements(helpers);
    }
  }

  // ----- binding -----

  /** None of the indices is a strict ancestor of y. */
  ghost predicate Uncovered(indices: seq<nat>, y: nat) {
    forall i :: i in indices ==> !StrictAncestor(i, y)
  }

  lemma NoMemberAbove(indices: seq<nat>, y: nat, a: nat)
    requires Member(indices, y) && Uncovered(indices, y) && StrictAncestor(a, y)
    ensures !Member(indices, a)
  {
    AncestorOfMemberReaches(indices, a, y);
    HelperCharacterization(indices, a);
  }

  /** A member that no index covers has its true word when the root is true, or a collision shows. */
  lemma MemberBinding(H: HashFn, tree: Labelling, indices: seq<nat>, m: map<nat, Word>, y: nat)
    requires Seeded(indices, m) && ConsistentAbove(H, tree, y)
    requires Eval(H, m, 1) == Some(tree(1))
    requires y >= 1 && Member(indices, y) && Uncovered(indices, y)
    ensures m[y] == tree(y) || CollidesAbove(H, m, tree, y)
  {
    hide Eval, HelperSet;
    forall a | StrictAncestor(a, y)
      ensures a !in m
    {
      NoMemberAbove(indices, y, a);
    }
    NodeBinding(H, m, tree, y);
    EvalKnown(H, m, y);
  }

  lemma MemberConsistent(H: HashFn, tree: Labelling, indices: seq<nat>, y: nat)
    requires ConsistentAboveAll(H, tree, indices) && Member(indices, y)
    ensures ConsistentAbove(H, tree, y)
  {
    forall a | StrictAncestor(a, y)
      ensures ConsistentAt(H, tree, a)
    {
      AncestorOfMemberReaches(indices, a, y);
      var i :| i in indices && StrictAncestor(a, i);
      assert ConsistentAbove(H, tree, i);
    }
  }

  ghost predicate InTree(indices: seq<nat>) {
    AllIndexed(indices) && (forall i :: i in indices ==> i >= 1) && Distinct(indices)
  }

  /** Some pair hashed for the multiproof collides with the labels at an ancestor of a member. */
  ghost predicate MultiCollides(H: HashFn, tree: Labelling, indices: seq<nat>, m: map<nat, Word>) {
    exists y :: Member(indices, y) && CollidesAbove(H, m, tree, y)
  }

  /** Leaf n counts: its index lies in the tree, is not written again, and is below no other index. */
  ghost predicate Effective(indices: seq<nat>, n: nat)
    requires n < |indices|
  {
    indices[n] >= 1 && indices[n] !in indices[n + 1..] && Uncovered(indices, indices[n])
  }

  lemma EffectiveSetsRoot(H: HashFn, indices: seq<nat>, leaves: seq<Word>, proof: seq<Word>, n: nat)
    requires AllIndexed(indices) && |leaves| == |indices| && |proof| == |HelperIndices(indices)|
    requires n < |indices| && indices[n] >= 1
    ensures Seeded(indices, Seed(indices, leaves, proof))
    ensures Eval(H, Seed(indices, leaves, proof), 1) == Some(MultiRoot(H, indices, leaves, proof))
  {
    hide Eval, HelperSet, Seed;
    SeedKeys(indices, leaves, proof);
    RootSetIff(H, indices, leaves, proof);
    assert indices[n] in indices;
  }

  /** An effective leaf is bound by the root, whatever the other indices are. */
  lemma LeafBinding(H: HashFn, tree: Labelling, indices: seq<nat>, leaves: seq<Word>, proof: seq<Word>, n: nat)
    requires AllIndexed(indices) && |leaves| == |indices| && |proof| == |HelperIndices(indices)|
    requires n < |indices| && Effective(indices, n) && ConsistentAbove(H, tree, indices[n])
    requires MultiRoot(H, indices, leaves, proof) == tree(1)
    ensures leaves[n] == tree(indices[n]) || CollidesAbove(H, Seed(indices, leaves, proof), tree, indices[n])
  {
    hide Eval, HelperSet, Seed, MultiRoot;
    EffectiveSetsRoot(H, indices, leaves, proof, n);
    SeedLeaf(indices, leaves, proof, n);
    MemberBinding(H, tree, indices, Seed(indices, leaves, proof), indices[n]);
  }

  /** Any other leaf has no influence: the root is the same for every value of it. */
  lemma IneffectiveLeaf(H: HashFn, indices: seq<nat>, leaves: seq<Word>, proof: seq<Word>, n: nat, w: Word)
    requires |leaves| == |indices| && |proof| == |HelperIndices(indices)| && n < |indices|
    requires !Effective(indices, n)
    ensures MultiRoot(H, indices, leaves[n := w], proof) == MultiRoot(H, indices, leaves, proof)
  {
    hide Eval;
    var base := SetAll(map[], HelperIndices(indices), proof);
    var k := indices[n];
    SetAllUpdate(base, indices, leaves, n, w);
    SetAllKeys(base, indices, leaves);
    if k !in indices[n + 1..] {
      if k == 0 {
        EvalAgrees(H, Seed(indices, leaves, proof), Seed(indices, leaves, proof)[0 := w], 1);
      } else {
        var a :| a in indices && StrictAncestor(a, k);
        assert !StrictAncestor(a, 1);
        ShadowedNode(H, Seed(indices, leaves, proof), a, k, w, 1);
      }
    }
  }

  lemma {:induction false} SetAllUpdate(m: map<nat, Word>, keys: seq<nat>, values: seq<Word>, n: nat, w: Word)
    requires |keys| == |values| && n < |keys|
    ensures SetAll(m, keys, values[n := w]) ==
      if keys[n] in keys[n + 1..] then SetAll(m, keys, values) else SetAll(m, keys, values)[keys[n] := w]
  {
    var last := |keys| - 1;
    if n < last {
      SetAllUpdate(m, keys[..last], values[..last], n, w);
      assert values[n := w][..last] == values[..last][n := w];
      assert keys[n + 1..] == keys[..last][n + 1..] + [keys[last]];
    } else {
      assert values[n := w][..last] == values[..last];
    }
  }

  lemma AntichainUncovered(indices: seq<nat>, y: nat)
    requires Antichain(indices) && Member(indices, y)
    ensures Uncovered(indices, y)
  {
    forall i | i in indices
      ensures !StrictAncestor(i, y)
    {
      MembersAntichain(indices, i, y);
    }
  }

  lemma NotWrittenAgain(indices: seq<nat>, n: nat)
    requires Distinct(indices) && n < |indices|
    ensures indices[n] !in indices[n + 1..]
  {
  }

  lemma LabelsEqual(tree: Labelling, nodes: seq<nat>, words: seq<Word>)
    requires |words| == |nodes|
    requires forall n :: 0 <= n < |nodes| ==> words[n] == tree(nodes[n])
    ensures words == Labels(tree, nodes)
  {
  }

  lemma NonemptyElements(s: seq<nat>)
    ensures s != [] ==> Elements(s) != {}
  {
    if s != [] {
      assert s[0] in Elements(s);
    }
  }

  lemma NoHelpers()
    ensures HelperIndices([]) == []
  {
    assert Elements(HelperIndices([])) == {};
    NonemptyElements(HelperIndices([]));
  }

  /** Soundness: over antichain indices the root fixes every leaf and every proof item. */
  lemma MultiproofBinding(H: HashFn, tree: Labelling, indices: seq<nat>, leaves: seq<Word>, proof: seq<Word>)
    requires InTree(indices) && Antichain(indices) && ConsistentAboveAll(H, tree, indices)
    requires |leaves| == |indices| && |proof| == |HelperIndices(indices)|
    requires MultiRoot(H, indices, leaves, proof) == tree(1)
    ensures (leaves == Labels(tree, indices) && proof == Labels(tree, HelperIndices(indices)))
         || MultiCollides(H, tree, indices, Seed(indices, leaves, proof))
  {
    hide Eval, HelperSet, Seed, CollidesAbove, HelperIndices, Labels;
    var m := Seed(indices, leaves, proof);
    SeedKeys(indices, leaves, proof);
    RootSetIff(H, indices, leaves, proof);
    if indices == [] {
      NoHelpers();
      LabelsEqual(tree, indices, leaves);
      LabelsEqual(tree, HelperIndices(indices), proof);
      return;
    }
    assert indices[0] in indices && indices[0] >= 1;
    if !MultiCollides(H, tree, indices, m) {
      forall n | 0 <= n < |indices|
        ensures leaves[n] == tree(indices[n])
      {
        NotWrittenAgain(indices, n);
        SeedLeaf(indices, leaves, proof, n);
        AntichainUncovered(indices, indices[n]);
        MemberConsistent(H, tree, indices, indices[n]);
        MemberBinding(H, tree, indices, m, indices[n]);
      }
      LabelsEqual(tree, indices, leaves);
      forall n | 0 <= n < |proof|
        ensures proof[n] == tree(HelperIndices(indices)[n])
      {
        SeedHelper(indices, leaves, proof, n);
        AntichainUncovered(indices, HelperIndices(indices)[n]);
        HelperCharacterization(indices, HelperIndices(indices)[n]);
        MemberConsistent(H, tree, indices, HelperIndices(indices)[n]);
        MemberBinding(H, tree, indices, m, HelperIndices(indices)[n]);
      }
      LabelsEqual(tree, HelperIndices(indices), proof);
    }
  }

  /** The words a run computes, as a labelling. */
  ghost function RunLabels(H: HashFn, m: map<nat, Word>): Labelling {
    (k: nat) => match Eval(H, m, k)
      case Some(w) => w
      case None => ZERO
  }

  /** The run's own words are consistent above every node that no index covers. */
  lemma RunConsistentAbove(H: HashFn, indices: seq<nat>, m: map<nat, Word>, y: nat)
    requires Seeded(indices, m) && Member(indices, y) && Uncovered(indices, y)
    ensures ConsistentAbove(H, RunLabels(H, m), y)
  {
    hide Eval, HelperSet;
    forall a | StrictAncestor(a, y)
      ensures ConsistentAt(H, RunLabels(H, m), a)
    {
      NoMemberAbove(indices, y, a);
      AncestorOfMemberReaches(indices, a, y);
      PathsEvaluate(H, RunLabels(H, m), indices, m, a);
      EvalStep(H, m, a);
    }
  }

  /** Two submissions with one root agree on every effective leaf, or a collision shows above it. */
  lemma LeafInjective(H: HashFn, indices: seq<nat>, leaves: seq<Word>, proof: seq<Word>,
                      leaves': seq<Word>, proof': seq<Word>, n: nat)
    requires AllIndexed(indices) && n < |indices| && Effective(indices, n)
    requires |leaves| == |leaves'| == |indices| && |proof| == |proof'| == |HelperIndices(indices)|
    requires MultiRoot(H, indices, leaves, proof) == MultiRoot(H, indices, leaves', proof')
    ensures leaves[n] == leaves'[n]
         || CollidesAbove(H, Seed(indices, leaves, proof), RunLabels(H, Seed(indices, leaves', proof')), indices[n])
  {
    hide Eval, HelperSet, Seed, CollidesAbove, HelperIndices, MultiRoot;
    var m' := Seed(indices, leaves', proof');
    EffectiveSetsRoot(H, indices, leaves', proof', n);
    SeedLeaf(indices, leaves', proof', n);
    RunConsistentAbove(H, indices, m', indices[n]);
    LeafBinding(H, RunLabels(H, m'), indices, leaves, proof, n);
    EvalKnown(H, m', indices[n]);
  }

  lemma RunIsConsistent(H: HashFn, indices: seq<nat>, m: map<nat, Word>)
    requires Seeded(indices, m) && Antichain(indices)
    ensures ConsistentAboveAll(H, RunLabels(H, m), indices)
  {
    hide Eval, HelperSet;
    forall i | i in indices
      ensures ConsistentAbove(H, RunLabels(H, m), i)
    {
      AntichainUncovered(indices, i);
      RunConsistentAbove(H, indices, m, i);
    }
  }

  /** Over antichain indices the root is injective in leaves and proof, up to collisions. */
  lemma MultiproofInjective(H: HashFn, indices: seq<nat>, leaves: seq<Word>, proof: seq<Word>,
                            leaves': seq<Word>, proof': seq<Word>)
    requires InTree(indices) && Antichain(indices)
    requires |leaves| == |leaves'| == |indices| && |proof| == |proof'| == |HelperIndices(indices)|
    requires MultiRoot(H, indices, leaves, proof) == MultiRoot(H, indices, leaves', proof')
    ensures (leaves == leaves' && proof == proof')
         || MultiCollides(H, RunLabels(H, Seed(indices, leaves', proof')), indices, Seed(indices, leaves, proof))
  {
    hide Eval, HelperSet, Seed, MultiCollides, HelperIndices, Labels;
    var m' := Seed(indices, leaves', proof');
    var tree := RunLabels(H, m');
    SeedKeys(indices, leaves', proof');
    RunIsConsistent(H, indices, m');
    MultiproofBinding(H, tree, indices, leaves, proof);
    forall n | 0 <= n < |indices|
      ensures leaves'[n] == tree(indices[n])
    {
      NotWrittenAgain(indices, n);
      SeedLeaf(indices, leaves', proof', n);
      EvalKnown(H, m', indices[n]);
    }
    LabelsEqual(tree, indices, leaves');
    forall n | 0 <= n < |proof'|
      ensures proof'[n] == tree(HelperIndices(indices)[n])
    {
      SeedHelper(indices, leaves', proof', n);
      EvalKnown(H, m', HelperIndices(indices)[n]);
    }
    LabelsEqual(tree, HelperIndices(indices), proof');
  }

  // ----- one index -----

  lemma {:induction false} BranchDecreasing(index: nat)
    ensures StrictlyDecreasing(BranchIndices(index))
    ensures forall x :: x in BranchIndices(index) ==> 2 <= x <= index + 1
  {
    if index >= 2 {
      var rest := BranchIndices(index / 2);
      BranchDecreasing(index / 2);
      if index < 4 {
        assert rest == [];
      }
      AddLargest(Sibling(index), rest);
    }
  }

  lemma NotBothSiblings(x: nat, index: nat)
    requires x >= 2 && Covers(Sibling(x), index)
    ensures !Covers(x, index)
  {
    if Covers(x, index) {
      AncestorsComparable(if x < Sibling(x) then x else Sibling(x), if x < Sibling(x) then Sibling(x) else x, index);
      SiblingNotCovering(x);
      SiblingNotCovering(Sibling(x));
    }
  }

  /** The helpers of a single index are its branch, in the branch's own order. */
  lemma SingleHelpers(index: nat)
    ensures HelperIndices([index]) == BranchIndices(index)
  {
    hide Covers, Sibling;
    var branch := BranchIndices(index);
    BranchDecreasing(index);
    forall x
      ensures x in branch <==> x in HelperSet([index])
    {
      InBranch(index, x);
      HelperCharacterization([index], x);
      assert index in [index];
      if x >= 2 && Covers(Sibling(x), index) {
        NotBothSiblings(x, index);
      }
    }
    assert Elements(branch) == HelperSet([index]);
    DecreasingUnique(HelperIndices([index]), branch);
  }

  /** Evaluation climbs the branch exactly as the single-branch fold does. */
  lemma {:induction false} ClimbsBranch(H: HashFn, index: nat, leaf: Word, proof: seq<Word>, m: map<nat, Word>, n: nat)
    requires 1 <= index < TWO_256 && |proof| == Depth(index) && n <= Depth(index)
    requires forall x :: x in m <==> x == index || x in BranchIndices(index)
    requires |BranchIndices(index)| == Depth(index)
    requires m[index] == leaf
    requires forall j :: 0 <= j < Depth(index) ==> m[BranchIndices(index)[j]] == proof[j]
    ensures Eval(H, m, Shr(index, n)) == Some(Fold(H, proof[..n], leaf, index))
  {
    hide Eval, Covers, Sibling, BranchIndices, Combine, Shr, Depth, Fold;
    if n == 0 {
      ShrZero(index);
      EvalKnown(H, m, index);
      assert proof[..0] == [];
      FoldNothing(H, leaf, index);
    } else {
      ClimbsBranch(H, index, leaf, proof, m, n - 1);
      FoldLast(H, proof, leaf, index, n - 1);
      BranchAt(index, n - 1);
      ShrStep(index, n - 1);
      ShrDepth(index, n - 1);
      var c := Shr(index, n - 1);
      var p := Shr(index, n);
      ShiftCovers(index, n - 1);
      CoversBelow(c, index);
      DepthAtLeast(c, 1);
      Pow2Step(0);
      OffBranch(index, n);
      ClimbStep(H, m, c, Fold(H, proof[..n - 1], leaf, index), proof[n - 1]);
    }
  }

  lemma ClimbStep(H: HashFn, m: map<nat, Word>, c: nat, node: Word, sibling: Word)
    requires 2 <= c < TWO_256
    requires Eval(H, m, c) == Some(node) && c / 2 !in m
    requires Sibling(c) in m && m[Sibling(c)] == sibling
    ensures Eval(H, m, c / 2) == Some(Combine(H, c, node, sibling))
  {
    hide Eval;
    EvalKnown(H, m, Sibling(c));
    EvalStep(H, m, c / 2);
  }

  lemma OffBranch(index: nat, n: nat)
    requires 0 < n <= Depth(index)
    ensures Shr(index, n) != index
    ensures Shr(index, n) !in BranchIndices(index)
  {
    ShrDepth(index, n);
    ShiftCovers(index, n);
    var p := Shr(index, n);
    InBranch(index, p);
    if p >= 2 && Covers(Sibling(p), index) {
      NotBothSiblings(p, index);
    }
  }

  /** A multiproof of one leaf is the single-branch proof: same length, same root. */
  lemma SingleEqualsMulti(H: HashFn, index: nat, leaf: Word, proof: seq<Word>)
    requires 1 <= index < TWO_256
    ensures |HelperIndices([index])| == Depth(index)
    ensures |proof| == Depth(index) ==> MultiRoot(H, [index], [leaf], proof) == Fold(H, proof, leaf, index)
  {
    hide Eval, BranchIndices, HelperIndices, Depth, Shr, Fold, Covers, SetAll;
    SingleHelpers(index);
    BranchLength(index);
    if |proof| == Depth(index) {
      var m := Seed([index], [leaf], proof);
      SeedLeaf([index], [leaf], proof, 0);
      SetAllKeys(map[], BranchIndices(index), proof);
      SetAllKeys(SetAll(map[], BranchIndices(index), proof), [index], [leaf]);
      SeedKeys([index], [leaf], proof);
      forall j | 0 <= j < Depth(index)
        ensures m[BranchIndices(index)[j]] == proof[j]
      {
        SeedHelper([index], [leaf], proof, j);
      }
      ClimbsBranch(H, index, leaf, proof, m, Depth(index));
      ShrDepth(index, Depth(index));
      DepthAtLeast(Shr(index, Depth(index)), 1);
      assert proof[..Depth(index)] == proof;
    }
  }
}
