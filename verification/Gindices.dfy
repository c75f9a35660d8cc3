/**
 Generalized indices of a binary Merkle tree: the root is 1 and the children of
 node k are 2k and 2k + 1. An index >= 1 is the path from the root to its node,
 one bit a step below a leading one.
 */
module Gindices {
  import opened Bits

  function Parent(k: nat): nat {
    k / 2
  }

  function Sibling(k: nat): nat {
    if k % 2 == 0 then k + 1 else k - 1
  }

  /** Node a is node k or one of its ancestors. */
  predicate Covers(a: nat, k: nat) {
    a == k || (k > a && Covers(a, k / 2))
  }

  predicate StrictAncestor(a: nat, k: nat) {
    1 <= a < k && Covers(a, k)
  }

  /** The node reached by walking path b from node a: tree b hangs below node a. */
  function ConcatIndex(a: nat, b: nat): nat {
    if b < 2 then a else 2 * ConcatIndex(a, b / 2) + b % 2
  }

  // ----- ancestors -----

  lemma CoversStep(a: nat, k: nat)
    requires k >= 1
    ensures Covers(a, k) <==> a == k || Covers(a, k / 2)
  {
    if Covers(a, k / 2) {
      CoversBelow(a, k / 2);
    }
  }

  lemma SiblingInvolution(k: nat)
    ensures Sibling(Sibling(k)) == k
    ensures Sibling(k) >= 2 <==> k >= 2
  {
  }

  lemma {:induction false} CoversTransitive(a: nat, b: nat, c: nat)
    requires Covers(a, b) && Covers(b, c)
    ensures Covers(a, c)
    decreases c
  {
    if b != c {
      CoversTransitive(a, b, c / 2);
    }
  }

  lemma {:induction false} RootCovers(k: nat)
    requires k >= 1
    ensures Covers(1, k)
  {
    if k > 1 {
      RootCovers(k / 2);
    }
  }

  /** A strict ancestor has exactly one child on the path. */
  lemma {:induction false} ChildOnPath(a: nat, k: nat) returns (c: nat)
    requires StrictAncestor(a, k)
    ensures c / 2 == a && Covers(c, k) && c >= 2
    decreases k
  {
    assert Covers(a, k / 2);
    if k / 2 == a {
      c := k;
    } else {
      c := ChildOnPath(a, k / 2);
    }
  }

  /** An ancestor of one sibling, other than itself, is an ancestor of the other. */
  lemma StrictAncestorOfSibling(a: nat, k: nat)
    requires k >= 2
    ensures StrictAncestor(a, Sibling(k)) <==> StrictAncestor(a, k)
  {
    assert Sibling(k) / 2 == k / 2;
    if Covers(a, k / 2) {
      CoversBelow(a, k / 2);
    }
  }

  lemma {:induction false} CoversDepth(a: nat, k: nat)
    requires 1 <= a && Covers(a, k)
    ensures Depth(a) <= Depth(k)
    ensures Shr(k, Depth(k) - Depth(a)) == a
    decreases k
  {
    if a != k {
      CoversDepth(a, k / 2);
    }
  }

  lemma {:induction false} ShiftCovers(k: nat, n: nat)
    requires n <= Depth(k)
    ensures Covers(Shr(k, n), k)
  {
    if n > 0 {
      ShiftCovers(k / 2, n - 1);
    }
  }

  /** Two ancestors of one node are comparable. */
  lemma {:induction false} AncestorsComparable(a: nat, b: nat, k: nat)
    requires Covers(a, k) && Covers(b, k) && a <= b
    ensures Covers(a, b)
    decreases k
  {
    if b != k && a != k {
      AncestorsComparable(a, b, k / 2);
    }
  }

  lemma {:induction false} CoversBelow(a: nat, k: nat)
    requires Covers(a, k)
    ensures a <= k
    decreases k
  {
    if a != k {
      CoversBelow(a, k / 2);
    }
  }

  lemma SiblingNotCovering(k: nat)
    requires k >= 2
    ensures Sibling(k) >= 2
    ensures !Covers(Sibling(k), k)
    ensures Depth(Sibling(k)) == Depth(k)
  {
    if Covers(Sibling(k), k) {
      CoversBelow(Sibling(k), k / 2);
    }
    assert Sibling(k) / 2 == k / 2;
  }

  // ----- concatenation -----

  lemma {:induction false} ConcatFormula(a: nat, b: nat)
    requires b >= 1
    ensures Pow2(Depth(b)) <= b
    ensures ConcatIndex(a, b) == Shl(a, Depth(b)) + (b - Pow2(Depth(b)))
  {
    hide Shl;
    DepthBounds(b);
    if b >= 2 {
      ConcatFormula(a, b / 2);
      ShlStep(a, Depth(b / 2));
      Pow2Step(Depth(b / 2));
    } else {
      ShlZero(a);
    }
  }

  lemma {:induction false} ConcatDepth(a: nat, b: nat)
    requires a >= 1 && b >= 1
    ensures ConcatIndex(a, b) >= 1
    ensures Depth(ConcatIndex(a, b)) == Depth(a) + Depth(b)
  {
    if b >= 2 {
      ConcatDepth(a, b / 2);
    }
  }

  lemma {:induction false} ConcatAssociative(a: nat, b: nat, c: nat)
    requires b >= 1 && c >= 1
    ensures ConcatIndex(ConcatIndex(a, b), c) == ConcatIndex(a, ConcatIndex(b, c))
    decreases c
  {
    if c >= 2 {
      ConcatAssociative(a, b, c / 2);
      ConcatDepth(b, c / 2);
    }
  }

  lemma {:induction false} ConcatRoot(b: nat)
    requires b >= 1
    ensures ConcatIndex(1, b) == b
  {
    if b >= 2 {
      ConcatRoot(b / 2);
    }
  }
}
