/**
 * The generic descending merge sort of passenger_density/main/data.py
 * (`merge_sort`, `merge`), driven by a key extractor.
 *
 * Keys are pairs compared lexicographically, as Python compares 2-tuples such
 * as (level score, passenger count); a plain integer key k is the pair (k, 0).
 */
module Sorting {

  type Key = (int, int)

  /** Python's `>=` on 2-tuples of integers. */
  predicate KeyAtLeast(a: Key, b: Key)
  {
    a.0 > b.0 || (a.0 == b.0 && a.1 >= b.1)
  }

  /** Non-increasing by key. */
  ghost predicate SortedDesc<T>(s: seq<T>, key: T -> Key)
  {
    forall i, j :: 0 <= i < j < |s| ==> KeyAtLeast(key(s[i]), key(s[j]))
  }

  /** The items of `s` whose key is `v`, in their order in `s`. */
  function WithKey<T>(s: seq<T>, key: T -> Key, v: Key): (r: seq<T>)
    ensures |r| <= |s|
  {
    if s == [] then []
    else (if key(s[0]) == v then [s[0]] else []) + WithKey(s[1..], key, v)
  }

  /**
   * `merge` as a function: repeatedly take the head with the larger key, the
   * left one when the keys are equal, and append the rest of whichever side is
   * left over.
   */
  function Merged<T>(left: seq<T>, right: seq<T>, key: T -> Key): seq<T>
    decreases |left| + |right|
  {
    if left == [] then right
    else if right == [] then left
    else if KeyAtLeast(key(left[0]), key(right[0])) then [left[0]] + Merged(left[1..], right, key)
    else [right[0]] + Merged(left, right[1..], key)
  }

  /**
   * `merge_sort`: split at the midpoint, sort both halves, merge. The result is
   * a permutation of the input, non-increasing by key, and stable: the items
   * sharing any one key keep their input order.
   */
  function MergeSort<T>(s: seq<T>, key: T -> Key): (r: seq<T>)
    ensures multiset(r) == multiset(s)
    ensures SortedDesc(r, key)
    ensures forall v :: WithKey(r, key, v) == WithKey(s, key, v)
  {
    if |s| <= 1 then s
    else
      var mid := |s| / 2;
      var left := MergeSort(s[..mid], key);
      var right := MergeSort(s[mid..], key);
      MergeSortStep(s, mid, left, right, key);
      Merged(left, right, key)
  }

  /**
   * The step of `MergeSort`: merging the sorted halves gives a sorted
   * permutation of the whole that keeps each key's items in input order.
   */
  lemma MergeSortStep<T>(s: seq<T>, mid: nat, left: seq<T>, right: seq<T>, key: T -> Key)
    requires mid <= |s|
    requires multiset(left) == multiset(s[..mid]) && SortedDesc(left, key)
    requires multiset(right) == multiset(s[mid..]) && SortedDesc(right, key)
    requires forall v :: WithKey(left, key, v) == WithKey(s[..mid], key, v)
    requires forall v :: WithKey(right, key, v) == WithKey(s[mid..], key, v)
    ensures multiset(Merged(left, right, key)) == multiset(s)
    ensures SortedDesc(Merged(left, right, key), key)
    ensures forall v :: WithKey(Merged(left, right, key), key, v) == WithKey(s, key, v)
  {
    assert s == s[..mid] + s[mid..];
    MergedPermutation(left, right, key);
    MergedSorted(left, right, key);
    forall v
      ensures WithKey(Merged(left, right, key), key, v) == WithKey(s, key, v)
    {
      MergedStable(left, right, key, v);
      WithKeyConcat(s[..mid], s[mid..], key, v);
    }
  }

  /** `merge`: the loop over two indexes, then the two leftover tails appended. */
  method Merge<T>(left: seq<T>, right: seq<T>, key: T -> Key) returns (result: seq<T>)
    ensures result == Merged(left, right, key)
  {
    result := [];
    var i, j := 0, 0;
    while i < |left| && j < |right|
      invariant 0 <= i <= |left| && 0 <= j <= |right|
      invariant result + Merged(left[i..], right[j..], key) == Merged(left, right, key)
      decreases |left| - i + |right| - j
    {
      var valLeft := key(left[i]);
      var valRight := key(right[j]);
      MergeLoopStep(left, right, i, j, key, result);
      if KeyAtLeast(valLeft, valRight) {
        result := result + [left[i]];
        i := i + 1;
      } else {
        result := result + [right[j]];
        j := j + 1;
      }
    }
    assert Merged(left[i..], right[j..], key) == left[i..] + right[j..] by {
      assert left[i..] == [] || right[j..] == [];
    }
    result := result + left[i..];
    result := result + right[j..];
  }

  // ---------------------------------------------------------------------------
  // Lemmas about merging and key filters
  // ---------------------------------------------------------------------------

  lemma {:induction false} WithKeyConcat<T>(a: seq<T>, b: seq<T>, key: T -> Key, v: Key)
    ensures WithKey(a + b, key, v) == WithKey(a, key, v) + WithKey(b, key, v)
  {
    if a == [] {
      assert a + b == b;
    } else {
      assert (a + b)[0] == a[0];
      assert (a + b)[1..] == a[1..] + b;
      WithKeyConcat(a[1..], b, key, v);
    }
  }

  /** An item is kept by the filter exactly when it is in the sequence and has key `v`. */
  lemma {:induction false} WithKeyMembers<T>(s: seq<T>, key: T -> Key, v: Key, x: T)
    ensures x in WithKey(s, key, v) <==> x in s && key(x) == v
  {
    if s != [] {
      WithKeyMembers(s[1..], key, v, x);
      assert s == [s[0]] + s[1..];
    }
  }

  /** One step of `Merged` on two non-empty sides. */
  lemma MergedUnfold<T>(left: seq<T>, right: seq<T>, key: T -> Key)
    requires left != [] && right != []
    ensures Merged(left, right, key) ==
      if KeyAtLeast(key(left[0]), key(right[0])) then [left[0]] + Merged(left[1..], right, key)
      else [right[0]] + Merged(left, right[1..], key)
  {
  }

  /** One step of `merge`'s loop, on the unmerged tails from positions i and j. */
  lemma MergeStep<T>(left: seq<T>, right: seq<T>, i: nat, j: nat, key: T -> Key)
    requires i < |left| && j < |right|
    ensures Merged(left[i..], right[j..], key) ==
      if KeyAtLeast(key(left[i]), key(right[j])) then [left[i]] + Merged(left[i + 1..], right[j..], key)
      else [right[j]] + Merged(left[i..], right[j + 1..], key)
  {
    assert left[i..][1..] == left[i + 1..];
    assert right[j..][1..] == right[j + 1..];
    MergedUnfold(left[i..], right[j..], key);
  }

  /** The loop invariant of `merge` carried across one iteration. */
  lemma MergeLoopStep<T>(left: seq<T>, right: seq<T>, i: nat, j: nat, key: T -> Key, result: seq<T>)
    requires i < |left| && j < |right|
    requires result + Merged(left[i..], right[j..], key) == Merged(left, right, key)
    ensures KeyAtLeast(key(left[i]), key(right[j])) ==>
      (result + [left[i]]) + Merged(left[i + 1..], right[j..], key) == Merged(left, right, key)
    ensures !KeyAtLeast(key(left[i]), key(right[j])) ==>
      (result + [right[j]]) + Merged(left[i..], right[j + 1..], key) == Merged(left, right, key)
  {
    MergeStep(left, right, i, j, key);
    if KeyAtLeast(key(left[i]), key(right[j])) {
      SeqAssoc(result, [left[i]], Merged(left[i + 1..], right[j..], key));
    } else {
      SeqAssoc(result, [right[j]], Merged(left[i..], right[j + 1..], key));
    }
  }

  lemma {:induction false} MergedPermutation<T>(left: seq<T>, right: seq<T>, key: T -> Key)
    ensures multiset(Merged(left, right, key)) == multiset(left) + multiset(right)
    decreases |left| + |right|
  {
    if left != [] && right != [] {
      if KeyAtLeast(key(left[0]), key(right[0])) {
        var rest := Merged(left[1..], right, key);
        assert Merged(left, right, key) == [left[0]] + rest by {
          MergedUnfold(left, right, key);
        }
        assert multiset(rest) == multiset(left[1..]) + multiset(right) by {
          MergedPermutation(left[1..], right, key);
        }
        assert multiset([left[0]] + rest) == multiset(left) + multiset(right) by {
          ConsMultiset(left[0], left[1..], right, rest);
          assert left == [left[0]] + left[1..];
        }
      } else {
        var rest := Merged(left, right[1..], key);
        assert Merged(left, right, key) == [right[0]] + rest by {
          MergedUnfold(left, right, key);
        }
        assert multiset(rest) == multiset(left) + multiset(right[1..]) by {
          MergedPermutation(left, right[1..], key);
        }
        assert multiset([right[0]] + rest) == multiset(left) + multiset(right) by {
          ConsMultiset(right[0], right[1..], left, rest);
          assert right == [right[0]] + right[1..];
        }
      }
    }
  }

  /** Putting an item back in front of one side of a merge keeps the multiset balance. */
  lemma ConsMultiset<T>(x: T, a: seq<T>, b: seq<T>, m: seq<T>)
    requires multiset(m) == multiset(a) + multiset(b)
    ensures multiset([x] + m) == multiset([x] + a) + multiset(b)
  {
    assert multiset([x] + m) == multiset{x} + multiset(m);
    assert multiset([x] + a) == multiset{x} + multiset(a);
  }

  /** A sequence stays sorted when an item at least as large as all its items is put in front. */
  lemma ConsSorted<T>(x: T, s: seq<T>, key: T -> Key)
    requires SortedDesc(s, key)
    requires forall y :: y in multiset(s) ==> KeyAtLeast(key(x), key(y))
    ensures SortedDesc([x] + s, key)
  {
    forall i, j | 0 <= i < j < |[x] + s|
      ensures KeyAtLeast(key(([x] + s)[i]), key(([x] + s)[j]))
    {
      if i == 0 {
        assert ([x] + s)[j] == s[j - 1];
        assert s[j - 1] in multiset(s);
      }
    }
  }

  lemma {:induction false} MergedSorted<T>(left: seq<T>, right: seq<T>, key: T -> Key)
    requires SortedDesc(left, key) && SortedDesc(right, key)
    ensures SortedDesc(Merged(left, right, key), key)
    decreases |left| + |right|
  {
    if left != [] && right != [] {
      if KeyAtLeast(key(left[0]), key(right[0])) {
        MergedSorted(left[1..], right, key);
        MergedPermutation(left[1..], right, key);
        forall y | y in multiset(Merged(left[1..], right, key))
          ensures KeyAtLeast(key(left[0]), key(y))
        {
          if y in multiset(left[1..]) {
            var k :| 0 <= k < |left[1..]| && left[1..][k] == y;
            assert left[k + 1] == y;
          } else {
            var k :| 0 <= k < |right| && right[k] == y;
          }
        }
        ConsSorted(left[0], Merged(left[1..], right, key), key);
      } else {
        MergedSorted(left, right[1..], key);
        MergedPermutation(left, right[1..], key);
        forall y | y in multiset(Merged(left, right[1..], key))
          ensures KeyAtLeast(key(right[0]), key(y))
        {
          if y in multiset(right[1..]) {
            var k :| 0 <= k < |right[1..]| && right[1..][k] == y;
            assert right[k + 1] == y;
          } else {
            var k :| 0 <= k < |left| && left[k] == y;
          }
        }
        ConsSorted(right[0], Merged(left, right[1..], key), key);
      }
    }
  }

  /** No item of `s` has key `v`, so the filter keeps nothing. */
  lemma {:induction false} WithKeyNone<T>(s: seq<T>, key: T -> Key, v: Key)
    requires forall i :: 0 <= i < |s| ==> key(s[i]) != v
    ensures WithKey(s, key, v) == []
  {
    if s != [] {
      WithKeyNone(s[1..], key, v);
    }
  }

  lemma SortedTail<T>(s: seq<T>, key: T -> Key)
    requires s != [] && SortedDesc(s, key)
    ensures SortedDesc(s[1..], key)
  {
    forall i, j | 0 <= i < j < |s[1..]|
      ensures KeyAtLeast(key(s[1..][i]), key(s[1..][j]))
    {
      assert s[1..][i] == s[i + 1] && s[1..][j] == s[j + 1];
    }
  }

  /** The first item of a non-empty sequence is kept by the filter of its own key. */
  lemma HeadKeyKept<T>(s: seq<T>, key: T -> Key)
    ensures s != [] ==> WithKey(s, key, key(s[0])) != []
  {
  }

  /** The filter of a sequence with a given first item. */
  lemma LeadingItemFilter<T>(x: T, s: seq<T>, key: T -> Key, v: Key)
    ensures WithKey([x] + s, key, v) == (if key(x) == v then [x] else []) + WithKey(s, key, v)
  {
    assert ([x] + s)[0] == x;
    assert ([x] + s)[1..] == s;
  }

  /**
   * Merging keeps, for each key, the left side's items of that key before the
   * right side's: the tie rule of `merge` (take the left on equal keys).
   */
  lemma {:induction false} MergedStable<T>(left: seq<T>, right: seq<T>, key: T -> Key, v: Key)
    requires SortedDesc(left, key)
    ensures WithKey(Merged(left, right, key), key, v) == WithKey(left, key, v) + WithKey(right, key, v)
    decreases |left| + |right|
  {
    if left != [] && right != [] {
      if KeyAtLeast(key(left[0]), key(right[0])) {
        SortedTail(left, key);
        MergedStable(left[1..], right, key, v);
        StableStepLeft(left, right, key, v);
      } else {
        MergedStable(left, right[1..], key, v);
        if key(right[0]) == v {
          NoneAboveHead(left, key, v);
        }
        StableStepRight(left, right, key, v);
      }
    }
  }

  /** The step of `MergedStable` that takes the left head. */
  lemma StableStepLeft<T>(left: seq<T>, right: seq<T>, key: T -> Key, v: Key)
    requires left != [] && right != [] && KeyAtLeast(key(left[0]), key(right[0]))
    requires WithKey(Merged(left[1..], right, key), key, v) == WithKey(left[1..], key, v) + WithKey(right, key, v)
    ensures WithKey(Merged(left, right, key), key, v) == WithKey(left, key, v) + WithKey(right, key, v)
  {
    var rest := Merged(left[1..], right, key);
    var head := if key(left[0]) == v then [left[0]] else [];
    assert Merged(left, right, key) == [left[0]] + rest by {
      MergedUnfold(left, right, key);
    }
    assert WithKey([left[0]] + rest, key, v) == head + WithKey(rest, key, v) by {
      LeadingItemFilter(left[0], rest, key, v);
    }
    assert WithKey(left, key, v) == head + WithKey(left[1..], key, v) by {
      LeadingItemFilter(left[0], left[1..], key, v);
      assert left == [left[0]] + left[1..];
    }
    SeqAssoc(head, WithKey(left[1..], key, v), WithKey(right, key, v));
  }

  /**
   * The step of `MergedStable` that takes the right head: when that head has
   * key `v`, the left side holds no item of key `v`.
   */
  lemma StableStepRight<T>(left: seq<T>, right: seq<T>, key: T -> Key, v: Key)
    requires left != [] && right != [] && !KeyAtLeast(key(left[0]), key(right[0]))
    requires key(right[0]) == v ==> WithKey(left, key, v) == []
    requires WithKey(Merged(left, right[1..], key), key, v) == WithKey(left, key, v) + WithKey(right[1..], key, v)
    ensures WithKey(Merged(left, right, key), key, v) == WithKey(left, key, v) + WithKey(right, key, v)
  {
    var rest := Merged(left, right[1..], key);
    var head := if key(right[0]) == v then [right[0]] else [];
    assert Merged(left, right, key) == [right[0]] + rest by {
      MergedUnfold(left, right, key);
    }
    assert WithKey([right[0]] + rest, key, v) == head + WithKey(rest, key, v) by {
      LeadingItemFilter(right[0], rest, key, v);
    }
    assert WithKey(right, key, v) == head + WithKey(right[1..], key, v) by {
      LeadingItemFilter(right[0], right[1..], key, v);
      assert right == [right[0]] + right[1..];
    }
    SwapFront(head, WithKey(left, key, v), WithKey(right[1..], key, v));
  }

  lemma SeqAssoc<T>(a: seq<T>, b: seq<T>, c: seq<T>)
    ensures a + (b + c) == (a + b) + c
  {
  }

  /** Moving a front part past a middle part that is empty whenever the front part is not. */
  lemma SwapFront<T>(h: seq<T>, a: seq<T>, c: seq<T>)
    requires h != [] ==> a == []
    ensures h + (a + c) == a + (h + c)
  {
  }

  /** In a non-increasing sequence whose head is below `v`, no item has key `v`. */
  lemma NoneAboveHead<T>(s: seq<T>, key: T -> Key, v: Key)
    requires s != [] && SortedDesc(s, key) && !KeyAtLeast(key(s[0]), v)
    ensures WithKey(s, key, v) == []
  {
    forall i | 0 <= i < |s|
      ensures key(s[i]) != v
    {
      if i > 0 {
        assert KeyAtLeast(key(s[0]), key(s[i]));
      }
    }
    WithKeyNone(s, key, v);
  }

  // ---------------------------------------------------------------------------
  // The sort's characterisation
  // ---------------------------------------------------------------------------

  /**
   * Two sequences that are both non-increasing by key and agree on the items of
   * every key are equal: a stable descending sort has only one possible result.
   */
  lemma {:induction false} StableSortUnique<T>(r1: seq<T>, r2: seq<T>, key: T -> Key)
    requires SortedDesc(r1, key) && SortedDesc(r2, key)
    requires forall v :: WithKey(r1, key, v) == WithKey(r2, key, v)
    ensures r1 == r2
  {
    if r1 == [] && r2 == [] {
    } else if r1 == [] {
      HeadKeyKept(r2, key);
      assert false;
    } else if r2 == [] {
      HeadKeyKept(r1, key);
      assert false;
    } else {
      var k := key(r1[0]);
      assert key(r2[0]) == k by {
        HeadDominates(r1, r2, key);
        HeadDominates(r2, r1, key);
        KeyAntisymmetric(key(r1[0]), key(r2[0]));
      }
      assert r1[0] == r2[0] by {
        TailFilter(r1, key, k);
        TailFilter(r2, key, k);
        assert WithKey(r1, key, k) == WithKey(r2, key, k);
        assert WithKey(r1, key, k)[0] == r1[0];
        assert WithKey(r2, key, k)[0] == r2[0];
      }
      forall v
        ensures WithKey(r1[1..], key, v) == WithKey(r2[1..], key, v)
      {
        TailFilter(r1, key, v);
        TailFilter(r2, key, v);
        assert WithKey(r1, key, v) == WithKey(r2, key, v);
        CancelPrefix(if k == v then [r1[0]] else [], WithKey(r1[1..], key, v), WithKey(r2[1..], key, v));
      }
      SortedTail(r1, key);
      SortedTail(r2, key);
      StableSortUnique(r1[1..], r2[1..], key);
      assert r1 == [r1[0]] + r1[1..];
      assert r2 == [r2[0]] + r2[1..];
    }
  }

  /** Keys at least as large as each other are equal. */
  lemma KeyAntisymmetric(a: Key, b: Key)
    requires KeyAtLeast(a, b) && KeyAtLeast(b, a)
    ensures a == b
  {
  }

  lemma CancelPrefix<T>(h: seq<T>, a: seq<T>, b: seq<T>)
    requires h + a == h + b
    ensures a == b
  {
    assert a == (h + a)[|h|..];
    assert b == (h + b)[|h|..];
  }

  /** The filter of a non-empty sequence, split at its first item. */
  lemma TailFilter<T>(s: seq<T>, key: T -> Key, v: Key)
    requires s != []
    ensures WithKey(s, key, v) == (if key(s[0]) == v then [s[0]] else []) + WithKey(s[1..], key, v)
  {
  }

  /**
   * If `r1` is non-increasing and agrees with `r2` on the items of `r2`'s first
   * key, then `r1` starts with a key at least as large.
   */
  lemma HeadDominates<T>(r1: seq<T>, r2: seq<T>, key: T -> Key)
    requires r1 != [] && r2 != [] && SortedDesc(r1, key)
    requires WithKey(r1, key, key(r2[0])) == WithKey(r2, key, key(r2[0]))
    ensures KeyAtLeast(key(r1[0]), key(r2[0]))
  {
    WithKeyMembers(r2, key, key(r2[0]), r2[0]);
    WithKeyMembers(r1, key, key(r2[0]), r2[0]);
    var i :| 0 <= i < |r1| && r1[i] == r2[0];
    assert i > 0 ==> KeyAtLeast(key(r1[0]), key(r1[i]));
  }

  /** An input already non-increasing by key comes back unchanged. */
  lemma SortedInputUnchanged<T>(s: seq<T>, key: T -> Key)
    requires SortedDesc(s, key)
    ensures MergeSort(s, key) == s
  {
    StableSortUnique(MergeSort(s, key), s, key);
  }

  /** Sorting twice gives what sorting once gives. */
  lemma MergeSortIdempotent<T>(s: seq<T>, key: T -> Key)
    ensures MergeSort(MergeSort(s, key), key) == MergeSort(s, key)
  {
    SortedInputUnchanged(MergeSort(s, key), key);
  }

  /** Inputs that are permutations of each other with the same order within each key sort alike. */
  lemma MergeSortDependsOnlyOnKeyClasses<T>(s: seq<T>, t: seq<T>, key: T -> Key)
    requires forall v :: WithKey(s, key, v) == WithKey(t, key, v)
    ensures MergeSort(s, key) == MergeSort(t, key)
  {
    StableSortUnique(MergeSort(s, key), MergeSort(t, key), key);
  }
}
