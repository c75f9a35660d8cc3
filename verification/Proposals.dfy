/**
 What an accepted fee recipient claim says about its block. Proposer and fee recipient
 have fixed places in a block; the contract takes the two indices from its caller.
 */
module Proposals {
  import opened Bits
  import opened Gindices
  import opened BitTricks
  import opened Arrays
  import opened Encoding
  import opened MerkleTree
  import opened Multiproof
  import opened BeaconOracle
  import opened BeaconHeader

  // The generalized indices of `proposer_index` and `body.execution_payload.fee_recipient`.
  const PROPOSER: nat := 9
  const FEE_RECIPIENT: nat := 6433

  /** Body in the block, execution payload in the body, fee recipient in the payload. */
  lemma RecipientPath()
    ensures FEE_RECIPIENT == ConcatAll([12, 25, 33]) && Depth(FEE_RECIPIENT) == 12
  {
    hide ConcatAll, ConcatIndex;
    ConcatOne(12);
    ConcatLast([12], 25);
    ConcatLast([12, 25], 33);
    assert [12] + [25] == [12, 25] && [12, 25] + [33] == [12, 25, 33];
    BodyPaths();
  }

  lemma BodyPaths()
    ensures ConcatIndex(12, 25) == 201 && ConcatIndex(201, 33) == FEE_RECIPIENT
  {
  }

  // ----- a claim against a block -----

  /** An accepted claim is bound to the nodes at its two indices, whatever these nodes hold. */
  lemma ClaimBinding(H: HashFn, tree: Labelling, i0: Index, i1: Index, proof: seq<Word>,
                     validatorIndex: bv256, feeRecipient: Address)
    requires AcceptsClaim(H, [i0, i1], proof, validatorIndex, feeRecipient, tree(1))
    ensures ProposerCounts(i0, i1) && ConsistentAbove(H, tree, i0) ==> (
      LittleEndian(validatorIndex) == tree(i0)
      || CollidesAbove(H, Seed([i0, i1], ClaimLeaves(validatorIndex, feeRecipient), proof), tree, i0))
    ensures RecipientCounts(i0, i1) && ConsistentAbove(H, tree, i1) ==> (
      AddressLeaf(feeRecipient) == tree(i1)
      || CollidesAbove(H, Seed([i0, i1], ClaimLeaves(validatorIndex, feeRecipient), proof), tree, i1))
  {
    hide MultiRoot, HelperIndices, Seed, CollidesAbove, ProposerCounts, RecipientCounts, Effective, ConsistentAbove;
    hide LittleEndian, AddressLeaf;
    CountsIsEffective(i0, i1);
    if ProposerCounts(i0, i1) && ConsistentAbove(H, tree, i0) {
      LeafBinding(H, tree, [i0, i1], ClaimLeaves(validatorIndex, feeRecipient), proof, 0);
    }
    if RecipientCounts(i0, i1) && ConsistentAbove(H, tree, i1) {
      LeafBinding(H, tree, [i0, i1], ClaimLeaves(validatorIndex, feeRecipient), proof, 1);
    }
  }

  /** Any two nodes that hold the encodings of a number and an address are an accepted claim. */
  lemma ClaimComplete(H: HashFn, tree: Labelling, i0: Index, i1: Index, validatorIndex: bv256, feeRecipient: Address)
    requires (i0 >= 1 || i1 >= 1) && ConsistentAbove(H, tree, i0) && ConsistentAbove(H, tree, i1)
    requires tree(i0) == LittleEndian(validatorIndex) && tree(i1) == AddressLeaf(feeRecipient)
    ensures AcceptsClaim(H, [i0, i1], Labels(tree, HelperIndices([i0, i1])), validatorIndex, feeRecipient, tree(1))
  {
    hide MultiRoot, HelperIndices, ConsistentAbove, LittleEndian, AddressLeaf, ClaimLeaves, AllIndexed, Labels;
    hide ConsistentAboveAll;
    assert i0 in [i0, i1] && i1 in [i0, i1];
    PairConsistent(H, tree, i0, i1);
    MultiproofComplete(H, tree, [i0, i1]);
    LeavesAreLabels(tree, i0, i1, validatorIndex, feeRecipient);
  }

  lemma PairConsistent(H: HashFn, tree: Labelling, i0: Index, i1: Index)
    requires ConsistentAbove(H, tree, i0) && ConsistentAbove(H, tree, i1)
    ensures AllIndexed([i0, i1]) && ConsistentAboveAll(H, tree, [i0, i1])
  {
    hide ConsistentAbove;
  }

  lemma LeavesAreLabels(tree: Labelling, i0: nat, i1: nat, validatorIndex: bv256, feeRecipient: Address)
    requires tree(i0) == LittleEndian(validatorIndex) && tree(i1) == AddressLeaf(feeRecipient)
    ensures Labels(tree, [i0, i1]) == ClaimLeaves(validatorIndex, feeRecipient)
  {
    hide LittleEndian, AddressLeaf;
  }

  /** At its own indices a claim names the block's proposer and fee recipient, or a collision shows. */
  lemma OwnClaim(H: HashFn, tree: Labelling, header: BeaconBlockHeader, recipient: Address, proof: seq<Word>,
                 validatorIndex: bv256, feeRecipient: Address)
    requires ConsistentAbove(H, tree, PROPOSER) && ConsistentAbove(H, tree, FEE_RECIPIENT)
    requires tree(PROPOSER) == Encode64(header.proposerIndex) && tree(FEE_RECIPIENT) == AddressLeaf(recipient)
    requires AcceptsClaim(H, [PROPOSER, FEE_RECIPIENT], proof, validatorIndex, feeRecipient, tree(1))
    ensures var m := Seed([PROPOSER, FEE_RECIPIENT], ClaimLeaves(validatorIndex, feeRecipient), proof);
      && (validatorIndex == Widen(header.proposerIndex) || CollidesAbove(H, m, tree, PROPOSER))
      && (feeRecipient == recipient || CollidesAbove(H, m, tree, FEE_RECIPIENT))
  {
    hide MultiRoot, HelperIndices, Seed, CollidesAbove, ConsistentAbove, LittleEndian, AddressLeaf, Widen;
    OwnIndicesCount();
    ClaimBinding(H, tree, PROPOSER, FEE_RECIPIENT, proof, validatorIndex, feeRecipient);
    if LittleEndian(validatorIndex) == tree(PROPOSER) {
      EncodingInjective(validatorIndex, Widen(header.proposerIndex));
    }
    if AddressLeaf(feeRecipient) == tree(FEE_RECIPIENT) {
      AddressLeafInjective(feeRecipient, recipient);
    }
  }

  lemma OwnIndicesCount()
    ensures ProposerCounts(PROPOSER, FEE_RECIPIENT) && RecipientCounts(PROPOSER, FEE_RECIPIENT)
  {
  }

  /** The failing input: at index 8 the block's slot is accepted as its proposer. */
  lemma SlotAsProposer(H: HashFn, tree: Labelling, header: BeaconBlockHeader, g: Index, feeRecipient: Address)
    requires ConsistentAbove(H, tree, 8) && ConsistentAbove(H, tree, g)
    requires tree(8) == Encode64(header.slot) && tree(PROPOSER) == Encode64(header.proposerIndex)
    requires tree(g) == AddressLeaf(feeRecipient) && header.slot != header.proposerIndex
    ensures AcceptsClaim(H, [8, g], Labels(tree, HelperIndices([8, g])), Widen(header.slot), feeRecipient, tree(1))
    ensures LittleEndian(Widen(header.slot)) != tree(PROPOSER)
    ensures g != 8 && !StrictAncestor(g, 8) ==> ProposerCounts(8, g)
  {
    hide AcceptsClaim, HelperIndices, ConsistentAbove, LittleEndian, AddressLeaf, Widen;
    ClaimComplete(H, tree, 8, g, Widen(header.slot), feeRecipient);
    if Encode64(header.slot) == Encode64(header.proposerIndex) {
      Encode64Injective(header.slot, header.proposerIndex);
    }
  }

  /** There is a block for any proposer and fee recipient. */
  lemma BlockOf(H: HashFn, validatorIndex: bv256, feeRecipient: Address) returns (tree: Labelling)
    ensures ConsistentAbove(H, tree, PROPOSER) && ConsistentAbove(H, tree, FEE_RECIPIENT)
    ensures tree(PROPOSER) == LittleEndian(validatorIndex) && tree(FEE_RECIPIENT) == AddressLeaf(feeRecipient)
  {
    hide HelperIndices, HelperSet, LittleEndian, AddressLeaf, Eval, Seed;
    var indices, leaves := [PROPOSER, FEE_RECIPIENT], ClaimLeaves(validatorIndex, feeRecipient);
    var proof := seq(|HelperIndices(indices)|, n => ZERO);
    var m := Seed(indices, leaves, proof);
    tree := RunLabels(H, m);
    OwnIndicesCount();
    CountsIsEffective(PROPOSER, FEE_RECIPIENT);
    SeedKeys(indices, leaves, proof);
    SeedLeaf(indices, leaves, proof, 0);
    SeedLeaf(indices, leaves, proof, 1);
    RunConsistentAbove(H, indices, m, PROPOSER);
    RunConsistentAbove(H, indices, m, FEE_RECIPIENT);
    EvalKnown(H, m, PROPOSER);
    EvalKnown(H, m, FEE_RECIPIENT);
  }

  // ----- the exact condition -----

  ghost predicate NoCollision(H: HashFn, m: map<nat, Word>, tree: Labelling) {
    forall a: nat :: a >= 1 ==> !CollidesAt(H, m, tree, a)
  }

  /** An accepted claim against a block that is consistent down to node t, without any collision. */
  ghost predicate Accepted(H: HashFn, tree: Labelling, t: nat, i0: nat, i1: nat, proof: seq<Word>,
                           validatorIndex: bv256, feeRecipient: Address) {
    ConsistentAbove(H, tree, t) && ConsistentAbove(H, tree, i0) && ConsistentAbove(H, tree, i1) &&
    AcceptsClaim(H, [i0, i1], proof, validatorIndex, feeRecipient, tree(1)) &&
    NoCollision(H, Seed([i0, i1], ClaimLeaves(validatorIndex, feeRecipient), proof), tree)
  }

  /** Leaf n of the claim is what the block has at node t, if the claim is accepted. */
  ghost predicate Tells(H: HashFn, tree: Labelling, n: nat, t: nat, i0: nat, i1: nat, proof: seq<Word>,
                        validatorIndex: bv256, feeRecipient: Address)
    requires n < 2
  {
    Accepted(H, tree, t, i0, i1, proof, validatorIndex, feeRecipient) ==>
      ClaimLeaves(validatorIndex, feeRecipient)[n] == tree(t)
  }

  /** So it is for every hash, block and claim at these indices. */
  ghost predicate Names(n: nat, t: nat, i0: nat, i1: nat)
    requires n < 2
  {
    forall H: HashFn, tree: Labelling, proof: seq<Word>, validatorIndex: bv256, feeRecipient: Address ::
      Tells(H, tree, n, t, i0, i1, proof, validatorIndex, feeRecipient)
  }

  /** Claims at these indices name the block's own proposer exactly when the index is its own and counts. */
  lemma ProposerNamedIff(i0: Index, i1: Index)
    ensures Names(0, PROPOSER, i0, i1) <==> i0 == PROPOSER && ProposerCounts(i0, i1)
  {
    hide Names, Effective, ProposerCounts;
    CountsIsEffective(i0, i1);
    NamedIff(0, PROPOSER, i0, i1);
  }

  lemma RecipientNamedIff(i0: Index, i1: Index)
    ensures Names(1, FEE_RECIPIENT, i0, i1) <==> i1 == FEE_RECIPIENT && RecipientCounts(i0, i1)
  {
    hide Names, Effective, RecipientCounts;
    CountsIsEffective(i0, i1);
    NamedIff(1, FEE_RECIPIENT, i0, i1);
  }

  /** For any node t: the leaf is bound to it exactly when it is placed there and effective. */
  lemma NamedIff(n: nat, t: nat, i0: Index, i1: Index)
    requires n < 2 && t >= 1
    ensures Names(n, t, i0, i1) <==> [i0, i1][n] == t && Effective([i0, i1], n)
  {
    hide Accepted, Tells, Effective, Related;
    if Effective([i0, i1], n) {
      if [i0, i1][n] == t {
        forall H: HashFn, tree: Labelling, proof: seq<Word>, v: bv256, f: Address
          ensures Tells(H, tree, n, t, i0, i1, proof, v, f)
        {
          EffectiveTells(H, tree, n, t, i0, i1, proof, v, f);
        }
      } else {
        var s := Separator(t, n, i0, i1);
        OtherNode(n, t, i0, i1, s);
      }
    } else if i0 >= 1 || i1 >= 1 {
      Overlooked(n, t, i0, i1);
    } else {
      NoTree(n, t);
    }
  }

  lemma EffectiveTells(H: HashFn, tree: Labelling, n: nat, t: nat, i0: Index, i1: Index, proof: seq<Word>,
                       v: bv256, f: Address)
    requires n < 2 && [i0, i1][n] == t && Effective([i0, i1], n)
    ensures Tells(H, tree, n, t, i0, i1, proof, v, f)
  {
    hide MultiRoot, HelperIndices, Seed, Effective, ConsistentAbove, ClaimLeaves, CollidesAt;
    if Accepted(H, tree, t, i0, i1, proof, v, f) {
      ClaimLeavesLength(v, f);
      LeafBinding(H, tree, [i0, i1], ClaimLeaves(v, f), proof, n);
    }
  }

  lemma ClaimLeavesLength(v: bv256, f: Address)
    ensures |ClaimLeaves(v, f)| == 2
  {
  }

  // ----- blocks that tell nodes apart -----

  // A word that encodes a number as well as an address; so does the zero word.
  const PLAIN: Word := Word(1 << 248)

  /** A hash that passes the zero word on as a mark. */
  function MarkingHash(): HashFn {
    (l: Word, r: Word) => if l == ZERO || r == ZERO then ZERO else PLAIN
  }

  predicate Related(s: nat, k: nat) {
    Covers(k, s) || Covers(s, k)
  }

  /** The block with a mark at node s, and so above and below it. */
  function MarkedBlock(s: nat): Labelling {
    (k: nat) => if Related(s, k) then ZERO else PLAIN
  }

  lemma MarkedConsistent(s: nat, a: nat)
    requires s >= 1 && a >= 1
    ensures ConsistentAt(MarkingHash(), MarkedBlock(s), a)
  {
    hide Covers;
    assert Covers(a, 2 * a) && Covers(a, 2 * a + 1) by {
      ChildrenCovered(a);
    }
    if Covers(a, s) && a != s {
      CoversBelow(a, s);
      var c := ChildOnPath(a, s);
    } else if Covers(s, a) {
      CoversTransitive(s, a, 2 * a);
    } else {
      forall c | c == 2 * a || c == 2 * a + 1
        ensures !Related(s, c)
      {
        CoversStep(s, c);
        if Covers(c, s) {
          CoversTransitive(a, c, s);
        }
      }
    }
  }

  lemma ChildrenCovered(a: nat)
    requires a >= 1
    ensures Covers(a, 2 * a) && Covers(a, 2 * a + 1)
  {
    assert Covers(a, a);
  }

  /** Two different nodes can be told apart: some node lies on one side of one of them only. */
  lemma Separator(t: nat, n: nat, i0: nat, i1: nat) returns (s: nat)
    requires n < 2 && t >= 1 && Effective([i0, i1], n) && [i0, i1][n] != t
    ensures [i0, i1][n] >= 1 && s >= 1 && (Related(s, t) <==> !Related(s, [i0, i1][n]))
  {
    hide Covers;
    var k := [i0, i1][n];
    if StrictAncestor(k, t) {
      s := Sibling(t);
      StrictAncestorOfSibling(k, t);
      SiblingApart(t);
    } else if StrictAncestor(t, k) {
      s := Sibling(k);
      StrictAncestorOfSibling(t, k);
      SiblingApart(k);
    } else {
      s := t;
      if Related(t, k) {
        CoversBelow(if Covers(k, t) then k else t, if Covers(k, t) then t else k);
      }
      assert Covers(t, t) by { SelfCovered(t); }
    }
  }

  lemma SelfCovered(t: nat)
    ensures Covers(t, t)
  {
  }

  lemma SiblingApart(k: nat)
    requires k >= 2
    ensures Sibling(k) >= 1 && !Related(Sibling(k), k)
  {
    SiblingNotCovering(k);
    SiblingInvolution(k);
    SiblingNotCovering(Sibling(k));
  }

  function NumberOf(w: Word): bv256 {
    if w == ZERO then 0 else 1
  }

  function AddressOf(w: Word): Address {
    if w == ZERO then 0 else 1 << 152
  }

  lemma Encodings(w: Word)
    requires w == ZERO || w == PLAIN
    ensures LittleEndian(NumberOf(w)) == w && AddressLeaf(AddressOf(w)) == w
  {
    hide LittleEndian;
    assert LittleEndian(0) == BoolToLittleEndian(false) && LittleEndian(1) == BoolToLittleEndian(true);
  }

  /** True words evaluate to true words. */
  lemma {:induction false} TrueEval(H: HashFn, tree: Labelling, m: map<nat, Word>, k: nat)
    requires TrueWords(m, tree) && k >= 1
    requires forall a: nat :: a >= 1 ==> ConsistentAt(H, tree, a)
    ensures Eval(H, m, k).Some? ==> Eval(H, m, k).value == tree(k)
    decreases TWO_256 - k
  {
    hide Eval;
    if k in m {
      EvalKnown(H, m, k);
    } else {
      EvalStep(H, m, k);
      if 2 * k + 1 < TWO_256 {
        TrueEval(H, tree, m, 2 * k);
        TrueEval(H, tree, m, 2 * k + 1);
        assert ConsistentAt(H, tree, k);
      }
    }
  }

  /** The labels of a block that is consistent throughout are accepted, and no collision shows. */
  lemma HonestClaim(H: HashFn, tree: Labelling, t: nat, i0: Index, i1: Index, v: bv256, f: Address)
    requires i0 >= 1 || i1 >= 1
    requires forall a: nat :: a >= 1 ==> ConsistentAt(H, tree, a)
    requires tree(i0) == LittleEndian(v) && tree(i1) == AddressLeaf(f)
    ensures Accepted(H, tree, t, i0, i1, Labels(tree, HelperIndices([i0, i1])), v, f)
  {
    hide Eval, HelperIndices, LittleEndian, AddressLeaf, AcceptsClaim, Covers, ConsistentAt;
    var indices, helpers := [i0, i1], HelperIndices([i0, i1]);
    ClaimComplete(H, tree, i0, i1, v, f);
    SetAllTrue(tree, map[], helpers);
    SetAllTrue(tree, SetAll(map[], helpers, Labels(tree, helpers)), indices);
    LabelsEqual(tree, indices, ClaimLeaves(v, f));
    var m := Seed(indices, ClaimLeaves(v, f), Labels(tree, helpers));
    forall a: nat | a >= 1
      ensures !CollidesAt(H, m, tree, a)
    {
      TrueEval(H, tree, m, 2 * a);
      TrueEval(H, tree, m, 2 * a + 1);
    }
  }

  /** An effective leaf placed at another node than t need not be what t holds. */
  lemma OtherNode(n: nat, t: nat, i0: Index, i1: Index, s: nat)
    requires n < 2 && (i0 >= 1 || i1 >= 1) && s >= 1
    requires Related(s, t) <==> !Related(s, [i0, i1][n])
    ensures !Names(n, t, i0, i1)
  {
    hide Accepted, Related, LittleEndian, AddressLeaf, HelperIndices;
    var H, tree := MarkingHash(), MarkedBlock(s);
    forall a: nat | a >= 1
      ensures ConsistentAt(H, tree, a)
    {
      MarkedConsistent(s, a);
    }
    Encodings(tree(i0));
    Encodings(tree(i1));
    var v, f := NumberOf(tree(i0)), AddressOf(tree(i1));
    HonestClaim(H, tree, t, i0, i1, v, f);
    assert PLAIN != ZERO;
    assert !Tells(H, tree, n, t, i0, i1, Labels(tree, HelperIndices([i0, i1])), v, f);
  }

  // ----- leaves that do not count -----

  predicate Basic(w: Word) {
    w == ZERO || w == PLAIN
  }

  ghost predicate AllBasic(m: map<nat, Word>) {
    forall k :: k in m ==> Basic(m[k])
  }

  lemma {:induction false} SetAllBasic(m: map<nat, Word>, keys: seq<nat>, values: seq<Word>)
    requires |keys| == |values| && AllBasic(m)
    requires forall i :: 0 <= i < |values| ==> Basic(values[i])
    ensures AllBasic(SetAll(m, keys, values))
  {
    if keys != [] {
      SetAllBasic(m, keys[..|keys| - 1], values[..|keys| - 1]);
    }
  }

  lemma {:induction false} BasicEval(m: map<nat, Word>, k: nat)
    requires AllBasic(m)
    ensures Eval(MarkingHash(), m, k).Some? ==> Basic(Eval(MarkingHash(), m, k).value)
    decreases TWO_256 - k
  {
    hide Eval;
    if k in m {
      EvalKnown(MarkingHash(), m, k);
    } else {
      EvalStep(MarkingHash(), m, k);
    }
  }

  function PlainBlock(): Labelling {
    (k: nat) => PLAIN
  }

  lemma PlainPair(p: Pair)
    requires Basic(p.0) && Basic(p.1)
    ensures !Collision(MarkingHash(), p, (PLAIN, PLAIN))
  {
  }

  /** Against a block of plain words marks show, so nothing collides. */
  lemma PlainNoCollision(m: map<nat, Word>)
    requires AllBasic(m)
    ensures NoCollision(MarkingHash(), m, PlainBlock())
  {
    hide Eval, CollidesAt, MarkingHash, PlainBlock, Basic;
    forall a: nat | a >= 1
      ensures !CollidesAt(MarkingHash(), m, PlainBlock(), a)
    {
      BasicEval(m, 2 * a);
      BasicEval(m, 2 * a + 1);
      NoneCollide(m, a);
    }
  }

  lemma NoneCollide(m: map<nat, Word>, a: nat)
    requires Eval(MarkingHash(), m, 2 * a).Some? ==> Basic(Eval(MarkingHash(), m, 2 * a).value)
    requires Eval(MarkingHash(), m, 2 * a + 1).Some? ==> Basic(Eval(MarkingHash(), m, 2 * a + 1).value)
    ensures !CollidesAt(MarkingHash(), m, PlainBlock(), a)
  {
    hide Eval, Collision, MarkingHash, Basic;
    var l, r := Eval(MarkingHash(), m, 2 * a), Eval(MarkingHash(), m, 2 * a + 1);
    if l.Some? && r.Some? {
      PlainPair((l.value, r.value));
    }
  }

  /** A leaf that is not effective can be anything. */
  lemma Overlooked(n: nat, t: nat, i0: Index, i1: Index)
    requires n < 2 && (i0 >= 1 || i1 >= 1) && !Effective([i0, i1], n)
    ensures !Names(n, t, i0, i1)
  {
    hide Accepted, AcceptsClaim, Effective, ProposerCounts, RecipientCounts, LittleEndian, AddressLeaf, HelperIndices;
    var H, tree := MarkingHash(), PlainBlock();
    var proof := Labels(tree, HelperIndices([i0, i1]));
    Encodings(PLAIN);
    Encodings(ZERO);
    assert PLAIN != ZERO;
    HonestClaim(H, tree, t, i0, i1, NumberOf(PLAIN), AddressOf(PLAIN));
    CountsIsEffective(i0, i1);
    if n == 0 {
      ReplacedClaim(t, i0, i1, proof, NumberOf(ZERO), AddressOf(PLAIN));
      assert !Tells(H, tree, n, t, i0, i1, proof, NumberOf(ZERO), AddressOf(PLAIN));
    } else {
      ReplacedClaim(t, i0, i1, proof, NumberOf(PLAIN), AddressOf(ZERO));
      assert !Tells(H, tree, n, t, i0, i1, proof, NumberOf(PLAIN), AddressOf(ZERO));
    }
  }

  lemma ReplacedClaim(t: nat, i0: Index, i1: Index, proof: seq<Word>, v: bv256, f: Address)
    requires proof == Labels(PlainBlock(), HelperIndices([i0, i1]))
    requires Accepted(MarkingHash(), PlainBlock(), t, i0, i1, proof, NumberOf(PLAIN), AddressOf(PLAIN))
    requires (v == NumberOf(PLAIN) && f == AddressOf(ZERO) && !RecipientCounts(i0, i1))
          || (v == NumberOf(ZERO) && f == AddressOf(PLAIN) && !ProposerCounts(i0, i1))
    ensures Accepted(MarkingHash(), PlainBlock(), t, i0, i1, proof, v, f)
  {
    hide AcceptsClaim, ProposerCounts, RecipientCounts, LittleEndian, AddressLeaf, HelperIndices, ConsistentAbove;
    hide NoCollision;
    var root := PlainBlock()(1);
    if v == NumberOf(ZERO) && !ProposerCounts(i0, i1) {
      ProposerUnbound(MarkingHash(), i0, i1, root, proof, NumberOf(PLAIN), f, v);
    } else {
      RecipientUnbound(MarkingHash(), i0, i1, root, proof, v, AddressOf(PLAIN), f);
    }
    Encodings(PLAIN);
    Encodings(ZERO);
    SetAllBasic(map[], HelperIndices([i0, i1]), proof);
    SetAllBasic(SetAll(map[], HelperIndices([i0, i1]), proof), [i0, i1], ClaimLeaves(v, f));
    PlainNoCollision(Seed([i0, i1], ClaimLeaves(v, f), proof));
  }

  /** With both indices zero any claim leads to the zero word. */
  lemma NoTree(n: nat, t: nat)
    requires n < 2
    ensures !Names(n, t, 0, 0)
  {
    hide LittleEndian, AddressLeaf, HelperIndices, HelperSet, Eval, Seed, Covers;
    var H: HashFn, tree: Labelling := MarkingHash(), (k: nat) => ZERO;
    var proof := seq(|HelperIndices([0, 0])|, i => ZERO);
    var v, f := NumberOf(PLAIN), AddressOf(PLAIN);
    Encodings(PLAIN);
    assert PLAIN != ZERO;
    var m := Seed([0, 0], ClaimLeaves(v, f), proof);
    RootSetIff(H, [0, 0], ClaimLeaves(v, f), proof);
    forall a: nat | a >= 1
      ensures !CollidesAt(H, m, tree, a)
    {
      if Eval(H, m, 2 * a).Some? {
        EvalNeedsKnown(H, m, 2 * a);
        SeedKeys([0, 0], ClaimLeaves(v, f), proof);
        var x :| x in m && x >= 1;
        HelperCharacterization([0, 0], x);
        CoversBelow(Sibling(x), 0);
      }
    }
    assert Accepted(H, tree, t, 0, 0, proof, v, f);
    assert !Tells(H, tree, n, t, 0, 0, proof, v, f);
  }
}
