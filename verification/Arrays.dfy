/**
 Memory arrays of words and the word-keyed map: `Arrays.sol`. Arrays are
 specified by the sequence of their elements; sorting is in place.
 */
module Arrays {
  import opened Bits

  // A uint256 used as a generalized index.
  type Index = uint256

  // ----- sequences -----

  predicate StrictlyDecreasing(s: seq<nat>) {
    forall i, j :: 0 <= i < j < |s| ==> s[i] > s[j]
  }

  predicate NonIncreasing(s: seq<nat>) {
    forall i, j :: 0 <= i < j < |s| ==> s[i] >= s[j]
  }

  predicate Distinct(s: seq<nat>) {
    forall i, j :: 0 <= i < j < |s| ==> s[i] != s[j]
  }

  ghost function Elements(s: seq<nat>): set<nat> {
    set x | x in s
  }

  /** The elements of `a` outside `b`, each kept at its last occurrence. */
  function Difference(a: seq<nat>, b: seq<nat>): seq<nat> {
    if a == [] then []
    else if a[0] in b || a[0] in a[1..] then Difference(a[1..], b)
    else [a[0]] + Difference(a[1..], b)
  }

  /** As a set it is the set difference, and nothing occurs twice. */
  lemma {:induction false} DifferenceIsSetDifference(a: seq<nat>, b: seq<nat>)
    ensures forall x :: x in Difference(a, b) <==> x in a && x !in b
    ensures Distinct(Difference(a, b))
  {
    if a != [] {
      DifferenceIsSetDifference(a[1..], b);
      assert forall x :: x in a <==> x == a[0] || x in a[1..];
    }
  }

  lemma {:induction false} DifferenceSplit(a: seq<nat>, b: seq<nat>, i: nat)
    requires i < |a|
    ensures Difference(a[i..], b)
         == (if a[i] in b || a[i] in a[i + 1..] then [] else [a[i]]) + Difference(a[i + 1..], b)
  {
    assert a[i..][1..] == a[i + 1..];
  }

  /** Strictly decreasing lists with the same elements are the same list. */
  lemma {:induction false} DecreasingUnique(s: seq<nat>, t: seq<nat>)
    requires StrictlyDecreasing(s) && StrictlyDecreasing(t)
    requires Elements(s) == Elements(t)
    ensures s == t
  {
    if s == [] {
      assert forall i :: 0 <= i < |t| ==> t[i] in Elements(t);
    } else {
      assert s[0] in Elements(s) && s[0] in Elements(t);
      assert t[0] in Elements(t) && t[0] in Elements(s);
      assert s[0] == t[0];
      assert Elements(s[1..]) == Elements(s) - {s[0]};
      assert Elements(t[1..]) == Elements(t) - {t[0]};
      DecreasingUnique(s[1..], t[1..]);
      assert s == [s[0]] + s[1..] && t == [t[0]] + t[1..];
    }
  }

  lemma SortedDistinct(s: seq<nat>, t: seq<nat>)
    requires multiset(s) == multiset(t) && NonIncreasing(s) && Distinct(t)
    ensures StrictlyDecreasing(s)
  {
    forall i, j | 0 <= i < j < |s|
      ensures s[i] != s[j]
    {
      if s[i] == s[j] {
        TwiceInMultiset(s, i, j);
        DistinctOnce(t, s[i]);
      }
    }
  }

  lemma TwiceInMultiset(s: seq<nat>, i: nat, j: nat)
    requires i < j < |s| && s[i] == s[j]
    ensures multiset(s)[s[i]] >= 2
  {
    assert s == s[..i + 1] + s[i + 1..];
    assert s[i] in s[..i + 1] && s[j] in s[i + 1..];
  }

  lemma {:induction false} DistinctOnce(t: seq<nat>, x: nat)
    requires Distinct(t)
    ensures multiset(t)[x] <= 1
  {
    if t != [] {
      DistinctOnce(t[1..], x);
      assert t == [t[0]] + t[1..];
    }
  }

  lemma SameElements(s: seq<nat>, t: seq<nat>)
    requires multiset(s) == multiset(t)
    ensures Elements(s) == Elements(t)
  {
    forall x
      ensures x in s <==> x in t
    {
      assert x in s <==> x in multiset(s);
      assert x in t <==> x in multiset(t);
    }
  }

  // ----- arrays -----

  method Concat(arr1: array<Index>, arr2: array<Index>) returns (tmp: array<Index>)
    ensures fresh(tmp) && tmp[..] == arr1[..] + arr2[..]
  {
    tmp := new Index[arr1.Length + arr2.Length];
    var i := 0;
    while i < arr1.Length
      invariant 0 <= i <= arr1.Length
      invariant tmp[..i] == arr1[..i]
    {
      tmp[i] := arr1[i];
      i := i + 1;
    }
    i := 0;
    while i < arr2.Length
      invariant 0 <= i <= arr2.Length
      invariant tmp[..arr1.Length + i] == arr1[..] + arr2[..i]
    {
      tmp[arr1.Length + i] := arr2[i];
      i := i + 1;
    }
    assert tmp[..] == tmp[..arr1.Length + arr2.Length];
  }

  method Push(arr: array<Index>, item: Index) returns (tmp: array<Index>)
    ensures fresh(tmp) && tmp[..] == arr[..] + [item]
  {
    tmp := new Index[arr.Length + 1];
    var i := 0;
    while i < arr.Length
      invariant 0 <= i <= arr.Length
      invariant tmp[..i] == arr[..i]
    {
      tmp[i] := arr[i];
      i := i + 1;
    }
    tmp[tmp.Length - 1] := item;
    assert tmp[..] == tmp[..arr.Length] + [item];
  }

  method Pop(arr: array<Index>) returns (tmp: array<Index>)
    requires arr.Length > 0
    ensures fresh(tmp) && tmp[..] == arr[..arr.Length - 1]
  {
    tmp := new Index[arr.Length - 1];
    var i := 0;
    while i < arr.Length - 1
      invariant 0 <= i <= arr.Length - 1
      invariant tmp[..i] == arr[..i]
    {
      tmp[i] := arr[i];
      i := i + 1;
    }
  }

  /** One of the inner scans of `difference`, which stops at the first match. */
  method Occurs(item: Index, arr: array<Index>, from: nat) returns (dup: bool)
    requires from <= arr.Length
    ensures dup <==> item in arr[from..]
  {
    dup := false;
    var x := from;
    while x < arr.Length
      invariant from <= x <= arr.Length
      invariant !dup && item !in arr[from..x]
    {
      if item == arr[x] {
        dup := true;
        break;
      }
      x := x + 1;
    }
  }

  method DifferenceArray(arr1: array<Index>, arr2: array<Index>) returns (tmp: array<Index>)
    ensures fresh(tmp) && tmp[..] == Difference(arr1[..], arr2[..])
  {
    hide Difference;
    tmp := new Index[0];
    ghost var a, b := arr1[..], arr2[..];
    var i := 0;
    assert a[0..] == a;
    while i < arr1.Length
      invariant 0 <= i <= arr1.Length
      invariant fresh(tmp)
      invariant a == arr1[..] && b == arr2[..]
      invariant tmp[..] + Difference(a[i..], b) == Difference(a, b)
    {
      DifferenceSplit(a, b, i);
      var dup := Occurs(arr1[i], arr2, 0);
      var dupLater := Occurs(arr1[i], arr1, i + 1);
      assert arr2[0..] == b;
      if !dup && !dupLater {
        tmp := Push(tmp, arr1[i]);
      }
      i := i + 1;
    }
    DifferenceNil(b);
    assert a[i..] == [];
  }

  lemma DifferenceNil(b: seq<nat>)
    ensures Difference([], b) == []
  {
  }

  // ----- in-place sorting -----

  /** t is s with the words between begin and end permuted and the others kept. */
  ghost predicate Rearranged(s: seq<nat>, t: seq<nat>, begin: nat, end: nat) {
    begin <= end <= |s| == |t| &&
    (forall k :: 0 <= k < begin || end <= k < |s| ==> s[k] == t[k]) &&
    multiset(s[begin..end]) == multiset(t[begin..end])
  }

  ghost predicate Split(s: seq<nat>, begin: nat, pos: nat, end: nat) {
    begin <= pos < end <= |s| &&
    (forall k :: begin <= k < pos ==> s[k] > s[pos]) &&
    (forall k :: pos < k < end ==> s[k] <= s[pos])
  }

  lemma RearrangedTransitive(s: seq<nat>, t: seq<nat>, u: seq<nat>, begin: nat, end: nat)
    requires Rearranged(s, t, begin, end) && Rearranged(t, u, begin, end)
    ensures Rearranged(s, u, begin, end)
  {
  }

  lemma RearrangedWider(s: seq<nat>, t: seq<nat>, begin: nat, from: nat, to: nat, end: nat)
    requires Rearranged(s, t, from, to) && begin <= from && to <= end <= |s|
    ensures Rearranged(s, t, begin, end)
  {
    assert s[begin..from] == t[begin..from] && s[to..end] == t[to..end];
    assert s[begin..end] == s[begin..from] + s[from..to] + s[to..end];
    assert t[begin..end] == t[begin..from] + t[from..to] + t[to..end];
  }

  /** What holds of every word of a segment holds after rearranging it. */
  lemma BoundsCarryOver(s: seq<nat>, t: seq<nat>, begin: nat, end: nat, pivot: nat)
    requires Rearranged(s, t, begin, end)
    ensures (forall k :: begin <= k < end ==> s[k] > pivot) ==> forall k :: begin <= k < end ==> t[k] > pivot
    ensures (forall k :: begin <= k < end ==> s[k] <= pivot) ==> forall k :: begin <= k < end ==> t[k] <= pivot
  {
    forall k | begin <= k < end
      ensures exists n :: begin <= n < end && s[n] == t[k]
    {
      assert t[begin..end][k - begin] in multiset(t[begin..end]);
      assert t[k] in multiset(s[begin..end]);
      var m :| 0 <= m < end - begin && s[begin..end][m] == t[k];
      assert s[begin + m] == t[k];
    }
  }

  /** Sorting both sides of a split segment sorts the segment. */
  lemma SortedSides(parted: seq<nat>, left: seq<nat>, right: seq<nat>, begin: nat, pos: nat, end: nat)
    requires Split(parted, begin, pos, end)
    requires Rearranged(parted, left, begin, pos) && NonIncreasing(left[begin..pos])
    requires Rearranged(left, right, pos + 1, end) && NonIncreasing(right[pos + 1..end])
    ensures Rearranged(parted, right, begin, end) && NonIncreasing(right[begin..end])
  {
    assert Rearranged(parted, right, begin, end) by {
      hide NonIncreasing;
      RearrangedWider(parted, left, begin, begin, pos, end);
      RearrangedWider(left, right, begin, pos + 1, end, end);
    }
    BoundsCarryOver(parted, left, begin, pos, parted[pos]);
    BoundsCarryOver(left, right, pos + 1, end, parted[pos]);
    assert right[begin..pos] == left[begin..pos];
    Joined(right[begin..pos], right[pos], right[pos + 1..end]);
    assert right[begin..end] == right[begin..pos] + [right[pos]] + right[pos + 1..end];
  }

  lemma Joined(high: seq<nat>, pivot: nat, low: seq<nat>)
    requires NonIncreasing(high) && NonIncreasing(low)
    requires forall k :: 0 <= k < |high| ==> high[k] > pivot
    requires forall k :: 0 <= k < |low| ==> low[k] <= pivot
    ensures NonIncreasing(high + [pivot] + low)
  {
  }

  ghost function Swapped(s: seq<nat>, i: nat, j: nat): seq<nat>
    requires i < |s| && j < |s|
  {
    s[i := s[j]][j := s[i]]
  }

  method Swap(a: array<Index>, i: nat, j: nat)
    requires i < a.Length && j < a.Length
    modifies a
    ensures a[..] == Swapped(old(a[..]), i, j)
  {
    a[i], a[j] := a[j], a[i];
  }

  lemma SwapRearranges(s: seq<nat>, i: nat, j: nat, begin: nat, end: nat)
    requires begin <= i < end <= |s| && begin <= j < end
    ensures Rearranged(s, Swapped(s, i, j), begin, end)
  {
    SwapKeepsMultiset(s[begin..end], i - begin, j - begin);
    var u := s[begin..end];
    assert Swapped(s, i, j)[begin..end] == Swapped(u, i - begin, j - begin);
  }

  /** A swap inside the segment being sorted. */
  method SwapWithin(a: array<Index>, i: nat, j: nat, ghost entry: seq<nat>, begin: nat, end: nat)
    requires begin <= i < end <= a.Length && begin <= j < end
    requires Rearranged(entry, a[..], begin, end)
    modifies a
    ensures a[..] == Swapped(old(a[..]), i, j)
    ensures Rearranged(entry, a[..], begin, end)
  {
    hide Rearranged;
    ghost var s := a[..];
    Swap(a, i, j);
    SwapRearranges(s, i, j, begin, end);
    RearrangedTransitive(entry, s, a[..], begin, end);
  }

  lemma SwapKeepsMultiset(u: seq<nat>, i: nat, j: nat)
    requires i < |u| && j < |u|
    ensures multiset(Swapped(u, i, j)) == multiset(u)
  {
  }

  /** Quick sort of a[begin..end] with the first element as pivot, larger first. */
  method QuickSort(a: array<Index>, begin: nat, end: nat)
    requires begin <= end <= a.Length
    modifies a
    ensures Rearranged(old(a[..]), a[..], begin, end)
    ensures NonIncreasing(a[begin..end])
    decreases end - begin
  {
    hide Rearranged, Split, NonIncreasing;
    ghost var entry := a[..];
    if end - begin < 2 {
      AtMostOne(entry, begin, end);
      return;
    }
    var pos := Partition(a, begin, end);
    ghost var parted := a[..];
    QuickSort(a, begin, pos);
    ghost var left := a[..];
    assert left[begin..pos] == a[begin..pos];
    QuickSort(a, pos + 1, end);
    ghost var right := a[..];
    assert right[pos + 1..end] == a[pos + 1..end];
    SortedSides(parted, left, right, begin, pos, end);
    RearrangedTransitive(entry, parted, right, begin, end);
    assert right[begin..end] == a[begin..end];
  }

  lemma AtMostOne(s: seq<nat>, begin: nat, end: nat)
    requires begin <= end <= |s| && end - begin < 2
    ensures Rearranged(s, s, begin, end) && NonIncreasing(s[begin..end])
  {
  }

  ghost predicate Scanned(s: seq<nat>, begin: nat, pos: nat, it: nat) {
    begin <= pos < it <= |s| &&
    (forall k :: begin < k <= pos ==> s[k] > s[begin]) &&
    (forall k :: pos < k < it ==> s[k] <= s[begin])
  }

  /** The scan of one quick-sort call: the pivot ends at the returned position. */
  method Partition(a: array<Index>, begin: nat, end: nat) returns (pos: nat)
    requires begin < end <= a.Length
    modifies a
    ensures begin <= pos < end
    ensures Rearranged(old(a[..]), a[..], begin, end)
    ensures Split(a[..], begin, pos, end)
  {
    hide Rearranged, Scanned, Split, Swapped;
    ghost var entry := a[..];
    SelfRearranged(entry, begin, end);
    ScanStarts(entry, begin);
    var pivot := a[begin];
    pos := begin;
    var it := begin + 1;
    while it < end
      invariant begin <= pos < it <= end
      invariant a[..][begin] == pivot
      invariant Rearranged(entry, a[..], begin, end)
      invariant Scanned(a[..], begin, pos, it)
    {
      ghost var s := a[..];
      ScanStep(s, begin, pos, it);
      if a[it] > pivot {
        pos := pos + 1;
        SwapWithin(a, pos, it, entry, begin, end);
      }
      it := it + 1;
    }
    ghost var s := a[..];
    SwapWithin(a, begin, pos, entry, begin, end);
    PivotPlaced(s, a[..], begin, pos, end);
  }

  lemma ScanStarts(s: seq<nat>, begin: nat)
    requires begin < |s|
    ensures Scanned(s, begin, begin, begin + 1)
  {
  }

  lemma ScanStep(s: seq<nat>, begin: nat, pos: nat, it: nat)
    requires Scanned(s, begin, pos, it) && it < |s|
    ensures if s[it] > s[begin]
      then Scanned(Swapped(s, pos + 1, it), begin, pos + 1, it + 1) && Swapped(s, pos + 1, it)[begin] == s[begin]
      else Scanned(s, begin, pos, it + 1)
  {
  }

  lemma SelfRearranged(s: seq<nat>, begin: nat, end: nat)
    requires begin <= end <= |s|
    ensures Rearranged(s, s, begin, end)
  {
  }

  lemma PivotPlaced(s: seq<nat>, t: seq<nat>, begin: nat, pos: nat, end: nat)
    requires Scanned(s, begin, pos, end)
    requires t == Swapped(s, begin, pos)
    ensures Split(t, begin, pos, end)
  {
  }

  method SortReverse(a: array<Index>)
    modifies a
    ensures NonIncreasing(a[..])
    ensures multiset(a[..]) == multiset(old(a[..]))
  {
    ghost var entry := a[..];
    QuickSort(a, 0, a.Length);
    assert a[0..a.Length] == a[..] && entry[0..a.Length] == entry;
  }

  // ----- the word-keyed map -----

  // A bytes32 value.
  datatype Word = Word(bits: bv256)

  const ZERO: Word := Word(0)

  /**
   The map kept in transient storage: a value slot and a flag slot per key, since
   zero is a legitimate value. Unset keys read as the zero word.
   */
  class HashMap {
    var values: map<nat, Word>
    var flags: set<nat>

    ghost predicate Valid()
      reads this
    {
      flags == values.Keys
    }

    constructor ()
      ensures Valid() && values == map[]
    {
      values := map[];
      flags := {};
    }

    method Set(key: nat, value: Word)
      requires Valid()
      modifies this
      ensures Valid() && values == old(values)[key := value]
    {
      values := values[key := value];
      flags := flags + {key};
    }

    /** A revert undoes the writes of the transaction. */
    method Restore(saved: map<nat, Word>)
      modifies this
      ensures Valid() && values == saved
    {
      values := saved;
      flags := saved.Keys;
    }

    function Get(key: nat): (value: Word)
      reads this
      ensures key in values ==> value == values[key]
      ensures key !in values ==> value == ZERO
    {
      if key in values then values[key] else ZERO
    }

    predicate Contains(key: nat)
      requires Valid()
      reads this
      ensures Contains(key) <==> key in values
    {
      key in flags
    }
  }
}
