/** The Merkle proof calculators of `Merkle.sol`, step by step. */
module Merkle {
  import opened Bits
  import opened Gindices
  import opened BitTricks
  import opened MerkleTree
  import opened Multiproof
  import opened Wrappers
  import A = Arrays

  datatype MerkleError = InvalidProof | Log2Undefined

  function GeneralizedIndexParent(index: A.Index): (r: A.Index)
    ensures r == Parent(index)
  {
    index / 2
  }

  function GeneralizedIndexSibling(index: A.Index): (r: A.Index)
    ensures r == Sibling(index)
  {
    XorOne(index);
    Xor(index, 1)
  }

  /** Climbs from the leaf, choosing sides by the bits of the index. */
  method CalculateMerkleRoot(H: HashFn, proof: array<A.Word>, leaf: A.Word, index: A.Index)
    returns (root: Result<A.Word, MerkleError>)
    ensures root ==
      if index == 0 then Failure(Log2Undefined)
      else if proof.Length != Depth(index) then Failure(InvalidProof)
      else Success(Fold(H, proof[..], leaf, index))
  {
    hide Fold, Depth, Shr, And, Shl, Combine;
    var log := Log2(index);
    if log.None? {
      return Failure(Log2Undefined);
    }
    if proof.Length != log.value {
      return Failure(InvalidProof);
    }
    var node := leaf;
    var i := 0;
    ShrZero(index);
    assert proof[0..] == proof[..];
    while i < proof.Length
      invariant 0 <= i <= proof.Length
      invariant Fold(H, proof[i..], node, Shr(index, i)) == Fold(H, proof[..], leaf, index)
    {
      FoldStep(H, proof[i..], node, Shr(index, i));
      assert proof[i..][1..] == proof[i + 1..];
      ShrStep(index, i);
      AndPow2(index, i);
      ShlIsProduct(1, i);
      CombineByBit(H, index, i, node, proof[i]);
      if And(index, Shl(1, i)) > 0 {
        node := H(proof[i], node);
      } else {
        node := H(node, proof[i]);
      }
      i := i + 1;
    }
    FoldNothing(H, node, Shr(index, i));
    assert proof[i..] == [];
    return Success(node);
  }

  lemma CombineByBit(H: HashFn, index: nat, i: nat, node: A.Word, sibling: A.Word)
    ensures Combine(H, Shr(index, i), node, sibling) == if Bit(index, i) then H(sibling, node) else H(node, sibling)
  {
  }

  method GetBranchIndices(index: A.Index) returns (branch: array<A.Index>)
    ensures fresh(branch) && branch[..] == BranchIndices(index)
  {
    hide Sibling;
    var o := new A.Index[1];
    o[0] := GeneralizedIndexSibling(index);
    ghost var node: nat := index;
    while o[o.Length - 1] > 1
      invariant fresh(o) && o.Length > 0
      invariant o[o.Length - 1] == Sibling(node)
      invariant BranchIndices(index) == o[..o.Length - 1] + BranchIndices(node)
      decreases node
    {
      ghost var prefix := o[..o.Length - 1];
      SiblingFacts(node);
      o := A.Push(o, GeneralizedIndexSibling(GeneralizedIndexParent(o[o.Length - 1])));
      assert o[..o.Length - 1] == prefix + [Sibling(node)];
      node := node / 2;
    }
    SiblingFacts(node);
    branch := A.Pop(o);
  }

  lemma SiblingFacts(node: nat)
    ensures Sibling(node) > 1 <==> node > 1
    ensures node > 1 ==> Sibling(node) / 2 == node / 2
  {
  }

  method GetPathIndices(index: A.Index) returns (path: array<A.Index>)
    ensures fresh(path) && path[..] == PathIndices(index)
  {
    var o := new A.Index[1];
    o[0] := index;
    while o[o.Length - 1] > 1
      invariant fresh(o) && o.Length > 0
      invariant PathIndices(index) == o[..o.Length - 1] + PathIndices(o[o.Length - 1])
      decreases o[o.Length - 1]
    {
      ghost var prefix, node := o[..o.Length - 1], o[o.Length - 1];
      o := A.Push(o, GeneralizedIndexParent(o[o.Length - 1]));
      assert o[..o.Length - 1] == prefix + [node];
    }
    path := A.Pop(o);
  }

  method GetHelperIndices(indices: array<A.Index>) returns (helpers: array<A.Index>)
    ensures fresh(helpers) && helpers[..] == HelperIndices(indices[..])
  {
    hide AllBranches, AllPaths, BranchIndices, PathIndices, HelperIndices;
    var allHelperIndices := new A.Index[0];
    var allPathIndices := new A.Index[0];
    NoBranches();
    var i := 0;
    while i < indices.Length
      invariant 0 <= i <= indices.Length
      invariant allHelperIndices[..] == AllBranches(indices[..i])
      invariant allPathIndices[..] == AllPaths(indices[..i])
    {
      AllStep(indices[..], i);
      var branch := GetBranchIndices(indices[i]);
      allHelperIndices := A.Concat(allHelperIndices, branch);
      var path := GetPathIndices(indices[i]);
      allPathIndices := A.Concat(allPathIndices, path);
      i := i + 1;
    }
    assert indices[..i] == indices[..];
    helpers := A.DifferenceArray(allHelperIndices, allPathIndices);
    ghost var unsorted: seq<nat> := helpers[..];
    A.SortReverse(helpers);
    SortedHelpers(indices[..], unsorted, helpers[..]);
  }

  lemma NoBranches()
    ensures AllBranches([]) == [] && AllPaths([]) == []
  {
  }

  lemma AllStep(indices: seq<nat>, i: nat)
    requires i < |indices|
    ensures AllBranches(indices[..i + 1]) == AllBranches(indices[..i]) + BranchIndices(indices[i])
    ensures AllPaths(indices[..i + 1]) == AllPaths(indices[..i]) + PathIndices(indices[i])
  {
    assert indices[..i + 1][..i] == indices[..i];
  }

  /** Sorting the de-duplicated difference yields the helper list. */
  lemma SortedHelpers(indices: seq<nat>, unsorted: seq<nat>, sorted: seq<nat>)
    requires unsorted == A.Difference(AllBranches(indices), AllPaths(indices))
    requires multiset(sorted) == multiset(unsorted) && A.NonIncreasing(sorted)
    ensures sorted == HelperIndices(indices)
  {
    A.DifferenceIsSetDifference(AllBranches(indices), AllPaths(indices));
    A.SortedDistinct(sorted, unsorted);
    A.SameElements(sorted, unsorted);
    assert A.Elements(unsorted) == HelperSet(indices);
    A.DecreasingUnique(sorted, HelperIndices(indices));
  }

  /** A processed node whose sibling is processed too has a parent. */
  predicate MergedAt(values: map<nat, A.Word>, done: set<nat>, k: nat) {
    k in done && Sibling(k) in done ==> k / 2 in values
  }

  ghost predicate Merged(values: map<nat, A.Word>, done: set<nat>) {
    done <= values.Keys && forall k: nat :: MergedAt(values, done, k)
  }

  predicate InRange(k: nat) {
    k < TWO_256
  }

  ghost function AllNodes(): set<nat> {
    set k: nat | k < TWO_256 && InRange(k)
  }

  /** One visit: the parent of a complete pair is hashed and stored, unless it is set. */
  method Visit(H: HashFn, store: A.HashMap, k: A.Index) returns (added: bool)
    requires store.Valid()
    modifies store
    ensures store.Valid()
    ensures added <==> k in old(store.values) && Sibling(k) in old(store.values) && k / 2 !in old(store.values)
    ensures added ==> k >= 2
    ensures added ==>
      store.values == old(store.values[k / 2 := H(store.values[2 * (k / 2)], store.values[2 * (k / 2) + 1])])
    ensures !added ==> store.values == old(store.values)
  {
    SiblingBits(k);
    added := store.Contains(k) && store.Contains(Xor(k, 1)) && !store.Contains(k / 2);
    if added {
      store.Set(k / 2, H(store.Get(Xor(Or(k, 1), 1)), store.Get(Or(k, 1))));
    }
  }

  /**
   The worklist: every key is visited once, and the parent of a completed pair is
   hashed, stored and appended. Whatever the order of the keys, if they list all nodes
   with a word the map grows to the least one that holds the seed and is closed under
   hashing siblings.
   */
  method Propagate(H: HashFn, store: A.HashMap, keyList: array<A.Index>)
    requires store.Valid() && Indexed(store.values)
    modifies store
    ensures store.Valid() && Indexed(store.values)
    ensures Included(old(store.values), store.values) && Derived(H, old(store.values), store.values)
    ensures Listed(old(store.values), {}, keyList[..]) ==>
      Closed(H, old(store.values), store.values) && LeastClosure(H, old(store.values), store.values)
  {
    hide Closed, Derived, LeastClosure, Merged, Sibling, AllNodes, Listed;
    ghost var seed := store.values;
    ghost var listed := Listed(seed, {}, keyList[..]);
    ghost var done: set<nat> := {};
    var keys := keyList;
    var pos := 0;
    SeedDerived(H, seed);
    assert keys[0..] == keyList[..];
    while pos < keys.Length
      invariant 0 <= pos <= keys.Length
      invariant store.Valid() && Indexed(store.values)
      invariant listed ==> Listed(store.values, done, keys[pos..])
      invariant Included(seed, store.values)
      invariant Derived(H, seed, store.values)
      invariant Merged(store.values, done)
      decreases AllNodes() - store.values.Keys, keys.Length - pos
    {
      var k := keys[pos];
      ghost var before, pending: seq<nat> := store.values, keys[pos + 1..];
      assert keys[pos..] == [k] + pending;
      ListedVisited(before, done, k, pending);
      var added := Visit(H, store, k);
      if added {
        PairHashed(H, seed, before, store.values, k);
        NewNode(before, store.values, k / 2);
        keys := A.Push(keys, k / 2);
        assert keys[pos + 1..] == pending + [k / 2];
        ListedPushed(before, store.values, done + {k}, pending, k / 2);
      }
      if k in before {
        MergedStep(before, store.values, done, k);
        done := done + {k};
      }
      pos := pos + 1;
    }
    if listed {
      assert keys[pos..] == [];
      MergedClosed(H, seed, store.values, done);
      ClosureIsLeast(H, seed, store.values);
    }
  }

  /** Every node with a word has been visited or is still to be. */
  ghost predicate Listed(values: map<nat, A.Word>, done: set<nat>, rest: seq<nat>) {
    forall k :: k in values && k >= 1 ==> k in done || k in rest
  }

  lemma ListedVisited(values: map<nat, A.Word>, done: set<nat>, k: nat, rest: seq<nat>)
    ensures Listed(values, done, [k] + rest) ==> Listed(values, if k in values then done + {k} else done, rest)
  {
  }

  lemma ListedPushed(before: map<nat, A.Word>, after: map<nat, A.Word>, done: set<nat>, rest: seq<nat>, k: nat)
    requires after.Keys == before.Keys + {k}
    ensures Listed(before, done, rest) ==> Listed(after, done, rest + [k])
  {
  }

  lemma NewNode(before: map<nat, A.Word>, after: map<nat, A.Word>, k: nat)
    requires k !in before && k < TWO_256 && after.Keys == before.Keys + {k}
    ensures AllNodes() - after.Keys < AllNodes() - before.Keys
  {
    assert InRange(k) && k in AllNodes() - before.Keys;
  }

  lemma SiblingBits(k: nat)
    ensures Xor(k, 1) == Sibling(k)
    ensures Or(k, 1) == 2 * (k / 2) + 1 && Xor(Or(k, 1), 1) == 2 * (k / 2)
    ensures Sibling(k) == if k % 2 == 0 then k + 1 else k - 1
  {
    XorOne(k);
    OrOne(k);
    XorOne(Or(k, 1));
  }

  lemma SeedDerived(H: HashFn, seed: map<nat, A.Word>)
    ensures Derived(H, seed, seed) && Merged(seed, {})
  {
  }

  lemma PairHashed(H: HashFn, seed: map<nat, A.Word>, before: map<nat, A.Word>, after: map<nat, A.Word>, k: nat)
    requires k in before && Sibling(k) in before && k / 2 !in before
    requires Derived(H, seed, before)
    requires after == before[k / 2 := H(before[2 * (k / 2)], before[2 * (k / 2) + 1])]
    ensures Derived(H, seed, after)
  {
    assert k >= 2;
    forall x: nat
      ensures DerivedAt(H, seed, after, x)
    {
      assert DerivedAt(H, seed, before, x);
    }
  }

  lemma MergedStep(before: map<nat, A.Word>, after: map<nat, A.Word>, done: set<nat>, k: nat)
    requires Merged(before, done) && k in before
    requires before.Keys <= after.Keys
    requires Sibling(k) in before ==> k / 2 in after
    ensures Merged(after, done + {k})
  {
    SiblingInvolution(k);
    forall x: nat
      ensures MergedAt(after, done + {k}, x)
    {
      assert MergedAt(before, done, x);
      if Sibling(x) == k && x >= 2 {
        assert x / 2 == k / 2;
      }
    }
  }

  lemma MergedClosed(H: HashFn, seed: map<nat, A.Word>, values: map<nat, A.Word>, done: set<nat>)
    requires Merged(values, done) && Derived(H, seed, values)
    requires Listed(values, done, [])
    requires Included(seed, values)
    ensures Closed(H, seed, values)
  {
    forall k: nat
      ensures ClosedAt(H, seed, values, k)
    {
      assert DerivedAt(H, seed, values, k);
      if k >= 1 && 2 * k in values && 2 * k + 1 in values {
        assert Sibling(2 * k) == 2 * k + 1;
        assert MergedAt(values, done, 2 * k);
      }
    }
  }

  /** Writes values[0] at keys[0], then values[1] at keys[1], and so on. */
  method SetEach(store: A.HashMap, keys: array<A.Index>, values: array<A.Word>)
    requires store.Valid() && keys.Length == values.Length
    modifies store
    ensures store.Valid() && store.values == SetAll(old(store.values), keys[..], values[..])
  {
    hide SetAll;
    ghost var base := store.values;
    SetNothing(base);
    var i := 0;
    while i < keys.Length
      invariant 0 <= i <= keys.Length
      invariant store.Valid() && store.values == SetAll(base, keys[..i], values[..i])
    {
      SetOneMore(base, keys[..], values[..], i);
      store.Set(keys[i], values[i]);
      i := i + 1;
    }
    assert keys[..i] == keys[..] && values[..i] == values[..];
  }

  lemma SetNothing(m: map<nat, A.Word>)
    ensures SetAll(m, [], []) == m
  {
  }

  lemma SetOneMore(m: map<nat, A.Word>, keys: seq<nat>, values: seq<A.Word>, i: nat)
    requires |keys| == |values| && i < |keys|
    ensures SetAll(m, keys[..i + 1], values[..i + 1]) == SetAll(m, keys[..i], values[..i])[keys[i] := values[i]]
  {
    assert keys[..i + 1][..i] == keys[..i] && values[..i + 1][..i] == values[..i];
  }

  /**
   Derives the helpers, seeds the map, runs the worklist and reads the root slot. The
   map may hold what earlier calls of the same transaction left in it.
   */
  method CalculateMultiMerkleRoot(H: HashFn, store: A.HashMap, proof: array<A.Word>, leaves: array<A.Word>,
                                  indices: array<A.Index>)
    returns (root: Result<A.Word, MerkleError>)
    requires store.Valid() && Indexed(store.values) && Leftover(store.values)
    modifies store
    ensures store.Valid() && Indexed(store.values) && Leftover(store.values)
    ensures root ==
      if leaves.Length != indices.Length || proof.Length != |HelperIndices(indices[..])| then Failure(InvalidProof)
      else Success(RootRead(H, old(LeftRoot(store.values)), indices[..], leaves[..], proof[..]))
    ensures root.Success? && (exists i :: i in indices[..] && i >= 1) ==> LeftRoot(store.values) == Some(root.value)
  {
    hide SetAll, HelperIndices, HelperSet, Eval, Closed, Derived, LeastClosure;
    if leaves.Length != indices.Length {
      return Failure(InvalidProof);
    }
    var helperIndices := GetHelperIndices(indices);
    if proof.Length != helperIndices.Length {
      return Failure(InvalidProof);
    }
    ghost var base := store.values;
    var keys := A.Concat(helperIndices, indices);
    ghost var unsorted := keys[..];
    A.SortReverse(keys);
    SetEach(store, helperIndices, proof);
    SetEach(store, indices, leaves);
    ghost var seed := store.values;
    assert seed == SeedOver(base, indices[..], leaves[..], proof[..]);
    KeysListed(base, indices[..], leaves[..], proof[..], unsorted, keys[..]);
    Propagate(H, store, keys);
    RootSlot(H, base, indices[..], leaves[..], proof[..], store.values);
    return Success(store.Get(1));
  }

  /** The root slot after the worklist, and the map as the next call finds it. */
  lemma RootSlot(H: HashFn, base: map<nat, A.Word>, indices: seq<nat>, leaves: seq<A.Word>, proof: seq<A.Word>,
                 values: map<nat, A.Word>)
    requires |leaves| == |indices| && |proof| == |HelperIndices(indices)|
    requires AllIndexed(indices) && Leftover(base) && Indexed(values)
    requires var seed := SeedOver(base, indices, leaves, proof);
      Included(seed, values) && Derived(H, seed, values) && (base.Keys <= {0} ==> Closed(H, seed, values))
    ensures Leftover(values)
    ensures (if 1 in values then values[1] else A.ZERO) == RootRead(H, LeftRoot(base), indices, leaves, proof)
    ensures (exists i :: i in indices && i >= 1) ==> 1 in values
  {
    hide SeedOver, Seed, HelperIndices, HelperSet, Eval, Closed, Derived;
    var seed := SeedOver(base, indices, leaves, proof);
    if 1 in base {
      OverRoot(H, base, indices, leaves, proof);
    } else {
      OverNothing(H, base, indices, leaves, proof);
      ClosureIsEval(H, seed, values, 1);
      RootSetIff(H, indices, leaves, proof);
      if 1 !in values {
        NothingReached(H, base, indices, leaves, proof, values);
      }
    }
  }

  lemma NothingReached(H: HashFn, base: map<nat, A.Word>, indices: seq<nat>, leaves: seq<A.Word>,
                       proof: seq<A.Word>, values: map<nat, A.Word>)
    requires |leaves| == |indices| && |proof| == |HelperIndices(indices)| && Indexed(values)
    requires base.Keys <= {0} && !exists i :: i in indices && i >= 1
    requires Closed(H, SeedOver(base, indices, leaves, proof), values)
    requires Derived(H, SeedOver(base, indices, leaves, proof), values)
    ensures values.Keys <= {0}
  {
    hide SeedOver, HelperIndices, HelperSet, Eval, Closed, Derived;
    var seed := SeedOver(base, indices, leaves, proof);
    OverKeys(base, indices, leaves, proof);
    forall k | k in values
      ensures k == 0
    {
      if k >= 1 {
        ClosureIsEval(H, seed, values, k);
        EvalNeedsKnown(H, seed, k);
        var x :| x in seed && x >= 1;
        HelperCharacterization(indices, x);
        var i :| i in indices && Covers(Sibling(x), i);
        CoversBelow(Sibling(x), i);
      }
    }
  }

  lemma KeysListed(base: map<nat, A.Word>, indices: seq<A.Index>, leaves: seq<A.Word>, proof: seq<A.Word>,
                   unsorted: seq<A.Index>, sorted: seq<A.Index>)
    requires |leaves| == |indices| && |proof| == |HelperIndices(indices)|
    requires unsorted == HelperIndices(indices) + indices && multiset(sorted) == multiset(unsorted)
    ensures forall k :: k in SeedOver(base, indices, leaves, proof) ==> k in base || (k in sorted && k < TWO_256)
  {
    hide HelperIndices;
    var helpers := HelperIndices(indices);
    SetAllKeys(base, helpers, proof);
    SetAllKeys(SetAll(base, helpers, proof), indices, leaves);
    forall k | k in SeedOver(base, indices, leaves, proof) && k !in base
      ensures k in sorted && k < TWO_256
    {
      assert k in unsorted;
      var index: A.Index := k;
      assert index in multiset(unsorted);
    }
  }
}
