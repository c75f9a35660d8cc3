/** Sums over finite sets of keys. */
module Sums {
  import opened Arithmetic

  ghost function Sum(s: set<nat>, f: nat -> int): int {
    if s == {} then 0
    else
      var x :| x in s;
      f(x) + Sum(s - {x}, f)
  }

  /** Any element can be taken out first. */
  lemma {:induction false} SumRemove(s: set<nat>, f: nat -> int, x: nat)
    requires x in s
    ensures Sum(s, f) == f(x) + Sum(s - {x}, f)
    decreases s
  {
    var y :| y in s && Sum(s, f) == f(y) + Sum(s - {y}, f);
    if y != x {
      SumRemove(s - {y}, f, x);
      SumRemove(s - {x}, f, y);
      assert s - {y} - {x} == s - {x} - {y};
    }
  }

  lemma {:induction false} SumCongruent(s: set<nat>, f: nat -> int, g: nat -> int)
    requires forall x :: x in s ==> f(x) == g(x)
    ensures Sum(s, f) == Sum(s, g)
    decreases s
  {
    if x :| x in s {
      SumRemove(s, f, x);
      SumRemove(s, g, x);
      SumCongruent(s - {x}, f, g);
    }
  }

  lemma SumInsert(s: set<nat>, f: nat -> int, g: nat -> int, x: nat)
    requires x !in s && forall y :: y in s ==> f(y) == g(y)
    ensures Sum(s + {x}, g) == Sum(s, f) + g(x)
  {
    SumRemove(s + {x}, g, x);
    assert s + {x} - {x} == s;
    SumCongruent(s, f, g);
  }

  lemma SumDelete(s: set<nat>, f: nat -> int, g: nat -> int, x: nat)
    requires x in s && forall y :: y in s && y != x ==> f(y) == g(y)
    ensures Sum(s - {x}, g) == Sum(s, f) - f(x)
  {
    SumRemove(s, f, x);
    SumCongruent(s - {x}, f, g);
  }

  lemma SumChange(s: set<nat>, f: nat -> int, g: nat -> int, x: nat)
    requires x in s && forall y :: y in s && y != x ==> f(y) == g(y)
    ensures Sum(s, g) == Sum(s, f) - f(x) + g(x)
  {
    SumDelete(s, f, g, x);
    SumRemove(s, g, x);
  }

  lemma {:induction false} SumUnion(s: set<nat>, t: set<nat>, f: nat -> int)
    requires s !! t
    ensures Sum(s + t, f) == Sum(s, f) + Sum(t, f)
    decreases s
  {
    if x :| x in s {
      SumRemove(s, f, x);
      SumRemove(s + t, f, x);
      assert s + t - {x} == (s - {x}) + t;
      SumUnion(s - {x}, t, f);
    } else {
      assert s + t == t;
    }
  }

  /** Sums are linear. */
  lemma {:induction false} SumLinear(s: set<nat>, f: nat -> int, g: nat -> int, h: nat -> int, k: int)
    requires forall x :: x in s ==> f(x) == g(x) + k * h(x)
    ensures Sum(s, f) == Sum(s, g) + k * Sum(s, h)
    decreases s
  {
    if x :| x in s {
      SumRemove(s, f, x);
      SumRemove(s, g, x);
      SumRemove(s, h, x);
      SumLinear(s - {x}, f, g, h, k);
      assert k * (h(x) + Sum(s - {x}, h)) == k * h(x) + k * Sum(s - {x}, h);
    }
  }

  lemma {:induction false} SumBounds(s: set<nat>, f: nat -> int, bound: nat)
    requires forall x :: x in s ==> 0 <= f(x) <= bound
    ensures 0 <= Sum(s, f) <= |s| * bound
    decreases s
  {
    if x :| x in s {
      SumRemove(s, f, x);
      SumBounds(s - {x}, f, bound);
      assert |s| == |s - {x}| + 1;
      Successor(|s - {x}|, bound);
    }
  }

  lemma SumMember(s: set<nat>, f: nat -> int, x: nat)
    requires x in s && forall y :: y in s ==> 0 <= f(y)
    ensures 0 <= f(x) <= Sum(s, f)
  {
    SumRemove(s, f, x);
    SumNonNegative(s - {x}, f);
  }

  lemma {:induction false} SumNonNegative(s: set<nat>, f: nat -> int)
    requires forall x :: x in s ==> 0 <= f(x)
    ensures 0 <= Sum(s, f)
    decreases s
  {
    if x :| x in s {
      SumRemove(s, f, x);
      SumNonNegative(s - {x}, f);
    }
  }

  /** Terms that are all zero outside t can be left out. */
  lemma SumSupport(s: set<nat>, t: set<nat>, f: nat -> int)
    requires t <= s && forall x :: x in s - t ==> f(x) == 0
    ensures Sum(s, f) == Sum(t, f)
  {
    SumUnion(t, s - t, f);
    assert t + (s - t) == s;
    SumBounds(s - t, f, 0);
  }

  /** At most n natural numbers lie below n. */
  lemma {:induction false} BoundedKeys(s: set<nat>, n: nat)
    requires forall x :: x in s ==> x < n
    ensures |s| <= n
  {
    if s == {} {
    } else if n - 1 in s {
      BoundedKeys(s - {n - 1}, n - 1);
    } else if n > 0 {
      BoundedKeys(s, n - 1);
    }
  }
}
