/** Ordering vocabulary shared by the local sorter, the merger and the coordinator:
    what "non-decreasing" means, and the reference sort `Sort` (the one
    non-decreasing rearrangement of a sequence) that every sorting step of the
    system is proved equal to. */
module Sorting {

  /** `s` is in non-decreasing order. */
  predicate Sorted(s: seq<int>) {
    forall p, q :: 0 <= p < q < |s| ==> s[p] <= s[q]
  }

  /** Inserts `x` into `s` in front of the first element not smaller than `x`. */
  function Insert(x: int, s: seq<int>): (r: seq<int>)
    ensures |r| == |s| + 1
    ensures multiset(r) == multiset(s) + multiset{x}
  {
    if s == [] || x <= s[0] then [x] + s
    else
      assert s == [s[0]] + s[1..];
      [s[0]] + Insert(x, s[1..])
  }

  /** A lower bound of `x` and of every element of `s` bounds every element
      of `Insert(x, s)`. */
  lemma {:induction false} InsertLowerBound(x: int, s: seq<int>, y: int)
    requires y <= x && forall k :: 0 <= k < |s| ==> y <= s[k]
    ensures forall k :: 0 <= k < |Insert(x, s)| ==> y <= Insert(x, s)[k]
  {
    if s != [] && x > s[0] {
      InsertLowerBound(x, s[1..], y);
      var r, rest := Insert(x, s), Insert(x, s[1..]);
      assert r == [s[0]] + rest;
      forall k | 0 < k < |r| ensures y <= r[k] {
        assert r[k] == rest[k - 1];
      }
    }
  }

  /** Inserting into a non-decreasing sequence keeps it non-decreasing. */
  lemma {:induction false} InsertSorted(x: int, s: seq<int>)
    requires Sorted(s)
    ensures Sorted(Insert(x, s))
  {
    if s != [] && x > s[0] {
      var r, rest := Insert(x, s), Insert(x, s[1..]);
      InsertSorted(x, s[1..]);
      InsertLowerBound(x, s[1..], s[0]);
      assert r == [s[0]] + rest;
      forall p, q | 0 <= p < q < |r| ensures r[p] <= r[q] {
        if p == 0 {
          assert r[q] == rest[q - 1];
        } else {
          assert r[p] == rest[p - 1] && r[q] == rest[q - 1];
        }
      }
    }
  }

  /** `s` is in non-decreasing order, stated neighbour by neighbour. It is the
      same order as `Sorted` (`SortedIsOrdered`, `OrderedIsSorted`) and exists
      only as the witness predicate in the definition of `Sort`: recursive, it
      keeps that definition cheap for the solver to unfold. */
  predicate Ordered(s: seq<int>)
    decreases |s|
  {
    |s| < 2 || (s[0] <= s[1] && Ordered(s[1..]))
  }

  /** The pairwise and the neighbour-wise orderings agree. */
  lemma {:induction false} SortedIsOrdered(s: seq<int>)
    requires Sorted(s)
    ensures Ordered(s)
    decreases |s|
  {
    if |s| >= 2 {
      SortedIsOrdered(s[1..]);
    }
  }

  lemma {:induction false} OrderedIsSorted(s: seq<int>)
    requires Ordered(s)
    ensures Sorted(s)
    decreases |s|
  {
    if |s| >= 2 {
      var t := s[1..];
      OrderedIsSorted(t);
      forall p, q | 0 <= p < q < |s| ensures s[p] <= s[q] {
        if p == 0 {
          assert s[1] == t[0] && s[q] == t[q - 1];
        } else {
          assert s[p] == t[p - 1] && s[q] == t[q - 1];
        }
      }
    }
  }

  /** Insertion sort, by repeated `Insert`. */
  function InsertionSort(s: seq<int>): (r: seq<int>)
    ensures |r| == |s|
    ensures multiset(r) == multiset(s)
  {
    if s == [] then []
    else
      assert s == [s[0]] + s[1..];
      Insert(s[0], InsertionSort(s[1..]))
  }

  /** Insertion sort produces a non-decreasing sequence. */
  lemma {:induction false} InsertionSortSorted(s: seq<int>)
    ensures Sorted(InsertionSort(s))
  {
    if s != [] {
      InsertionSortSorted(s[1..]);
      InsertSorted(s[0], InsertionSort(s[1..]));
    }
  }

  /** The reference sort: a non-decreasing rearrangement of `s` (insertion
      sort shows there is one, `SortCharacterized` that there is only one). */
  ghost function Sort(s: seq<int>): (r: seq<int>)
    ensures |r| == |s|
    ensures multiset(r) == multiset(s)
  {
    InsertionSortSorted(s);
    SortedIsOrdered(InsertionSort(s));
    var r :| Ordered(r) && multiset(r) == multiset(s);
    assert |r| == |multiset(r)| == |multiset(s)| == |s|;
    r
  }

  /** The reference sort produces a non-decreasing sequence. */
  lemma SortSorted(s: seq<int>)
    ensures Sorted(Sort(s))
  {
    OrderedIsSorted(Sort(s));
  }

  /** The first element of a non-decreasing sequence is its least. */
  lemma HeadIsLeast(s: seq<int>, x: int)
    requires Sorted(s) && x in multiset(s)
    ensures s != [] && s[0] <= x
  {
  }

  /** Two non-decreasing sequences with the same elements are equal. */
  lemma {:induction false} SortedPermutationUnique(s: seq<int>, t: seq<int>)
    requires Sorted(s) && Sorted(t)
    requires multiset(s) == multiset(t)
    ensures s == t
  {
    assert |t| == |multiset(t)| == |multiset(s)| == |s|;
    if s != [] {
      assert s[0] in multiset(s) && t[0] in multiset(t);
      HeadIsLeast(t, s[0]);
      HeadIsLeast(s, t[0]);
      assert s[0] == t[0];
      assert s == [s[0]] + s[1..] && t == [t[0]] + t[1..];
      assert multiset(s) == multiset{s[0]} + multiset(s[1..]);
      assert multiset(t) == multiset{t[0]} + multiset(t[1..]);
      assert multiset(s[1..]) == multiset(s) - multiset{s[0]};
      assert multiset(t[1..]) == multiset(t) - multiset{t[0]};
      SortedPermutationUnique(s[1..], t[1..]);
    }
  }

  /** Any non-decreasing permutation of `s` is `Sort(s)`. */
  lemma SortCharacterized(s: seq<int>, t: seq<int>)
    requires Sorted(t) && multiset(t) == multiset(s)
    ensures t == Sort(s)
  {
    SortSorted(s);
    SortedPermutationUnique(t, Sort(s));
  }

  /** Sorting a sequence that is already non-decreasing leaves it unchanged. */
  lemma SortIdempotent(s: seq<int>)
    requires Sorted(s)
    ensures Sort(s) == s
  {
    SortSorted(s);
    SortedPermutationUnique(s, Sort(s));
  }
}
