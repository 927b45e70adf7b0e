/** The final merge on the collecting process (rank 0): `std::merge` of the
    ranges [0, chunk) and [chunk, N) of the gathered vector into an initially
    empty vector `temp` through a back-inserter. The model follows the usual
    two-finger implementation: while both ranges have elements it appends the
    head of the second range only when that head is strictly smaller than the
    head of the first, otherwise the head of the first (so of two equal
    elements the one from the first range comes out first); when one range
    runs out it copies the rest of the other. */
module Merger {
  import opened Sorting

  /** Whether the next element the merge emits comes from the second range. */
  predicate TakeSecond(a: seq<int>, b: seq<int>) {
    a == [] || (b != [] && b[0] < a[0])
  }

  /** The sequence `std::merge(a, b)` writes, one element at a time. */
  function Merged(a: seq<int>, b: seq<int>): (r: seq<int>)
    ensures |r| == |a| + |b|
    decreases |a| + |b|
  {
    if a == [] && b == [] then []
    else if TakeSecond(a, b) then [b[0]] + Merged(a, b[1..])
    else [a[0]] + Merged(a[1..], b)
  }

  /** The merge is a rearrangement of the two ranges together: no element is
      lost, duplicated or invented. */
  lemma {:induction false} MergePermutes(a: seq<int>, b: seq<int>)
    ensures multiset(Merged(a, b)) == multiset(a) + multiset(b)
    decreases |a| + |b|
  {
    if a == [] && b == [] {
    } else if TakeSecond(a, b) {
      var rest := Merged(a, b[1..]);
      MergePermutes(a, b[1..]);
      assert Merged(a, b) == [b[0]] + rest;
      assert multiset([b[0]] + rest) == multiset([b[0]]) + multiset(rest);
      assert b == [b[0]] + b[1..];
      assert multiset(b) == multiset([b[0]]) + multiset(b[1..]);
    } else {
      var rest := Merged(a[1..], b);
      MergePermutes(a[1..], b);
      assert Merged(a, b) == [a[0]] + rest;
      assert multiset([a[0]] + rest) == multiset([a[0]]) + multiset(rest);
      assert a == [a[0]] + a[1..];
      assert multiset(a) == multiset([a[0]]) + multiset(a[1..]);
    }
  }

  /** For each position of `Merged(a, b)`, whether its element was taken from
      the first range (`true`) or from the second (`false`). */
  function Origins(a: seq<int>, b: seq<int>): (o: seq<bool>)
    decreases |a| + |b|
  {
    if a == [] && b == [] then []
    else if TakeSecond(a, b) then [false] + Origins(a, b[1..])
    else [true] + Origins(a[1..], b)
  }

  /** The elements of `r` at the positions where `o` is `want`, in order. */
  function Pick(r: seq<int>, o: seq<bool>, want: bool): seq<int>
    requires |r| == |o|
  {
    if r == [] then []
    else (if o[0] == want then [r[0]] else []) + Pick(r[1..], o[1..], want)
  }

  /** Merging with an empty second range copies the first range. */
  lemma {:induction false} MergeEmptySecond(a: seq<int>)
    ensures Merged(a, []) == a
    decreases |a|
  {
    if a != [] {
      MergeEmptySecond(a[1..]);
    }
  }

  /** Merging with an empty first range copies the second range. */
  lemma {:induction false} MergeEmptyFirst(b: seq<int>)
    ensures Merged([], b) == b
    decreases |b|
  {
    if b != [] {
      MergeEmptyFirst(b[1..]);
    }
  }

  /** One step of the two-finger loop while both ranges have elements. */
  lemma MergeStep(a: seq<int>, b: seq<int>)
    requires a != [] && b != []
    ensures b[0] < a[0] ==> Merged(a, b) == [b[0]] + Merged(a, b[1..])
    ensures a[0] <= b[0] ==> Merged(a, b) == [a[0]] + Merged(a[1..], b)
  {
  }

  /** A lower bound of both ranges is a lower bound of their merge. */
  lemma MergeBounded(a: seq<int>, b: seq<int>, x: int)
    requires forall k :: 0 <= k < |a| ==> x <= a[k]
    requires forall k :: 0 <= k < |b| ==> x <= b[k]
    ensures forall k :: 0 <= k < |Merged(a, b)| ==> x <= Merged(a, b)[k]
  {
  }

  /** Merging two non-decreasing ranges gives a non-decreasing sequence. */
  lemma {:induction false} MergeSorted(a: seq<int>, b: seq<int>)
    requires Sorted(a) && Sorted(b)
    ensures Sorted(Merged(a, b))
    decreases |a| + |b|
  {
    if a == [] && b == [] {
    } else if TakeSecond(a, b) {
      MergeSorted(a, b[1..]);
      MergeBounded(a, b[1..], b[0]);
    } else {
      MergeSorted(a[1..], b);
      MergeBounded(a[1..], b, a[0]);
    }
  }

  /** The merge interleaves the two ranges without reordering either: reading
      off the elements that came from the first range gives the first range,
      and likewise for the second. */
  lemma {:induction false} MergeInterleaves(a: seq<int>, b: seq<int>)
    ensures |Origins(a, b)| == |Merged(a, b)|
    ensures Pick(Merged(a, b), Origins(a, b), true) == a
    ensures Pick(Merged(a, b), Origins(a, b), false) == b
    decreases |a| + |b|
  {
    if a == [] && b == [] {
    } else if TakeSecond(a, b) {
      MergeInterleaves(a, b[1..]);
      var r, o := Merged(a, b), Origins(a, b);
      assert r[1..] == Merged(a, b[1..]) && o[1..] == Origins(a, b[1..]);
      assert b == [b[0]] + b[1..];
    } else {
      MergeInterleaves(a[1..], b);
      var r, o := Merged(a, b), Origins(a, b);
      assert r[1..] == Merged(a[1..], b) && o[1..] == Origins(a[1..], b);
      assert a == [a[0]] + a[1..];
    }
  }

  /** An element marked as coming from the first range is an element of the
      first range, and likewise for the second. */
  lemma {:induction false} OriginValue(a: seq<int>, b: seq<int>, q: int)
    requires 0 <= q < |Merged(a, b)|
    ensures |Origins(a, b)| == |Merged(a, b)|
    ensures Origins(a, b)[q] ==> Merged(a, b)[q] in multiset(a)
    ensures !Origins(a, b)[q] ==> Merged(a, b)[q] in multiset(b)
    decreases |a| + |b|
  {
    MergeInterleaves(a, b);
    if TakeSecond(a, b) {
      assert b == [b[0]] + b[1..];
      if q > 0 {
        OriginValue(a, b[1..], q - 1);
      }
    } else {
      assert a == [a[0]] + a[1..];
      if q > 0 {
        OriginValue(a[1..], b, q - 1);
      }
    }
  }

  /** Stability of the merge of two non-decreasing ranges: an element of the
      second range is never placed before an element of the first range that
      is not larger than it, so equal elements keep the first range first. */
  lemma {:induction false} MergeStable(a: seq<int>, b: seq<int>, p: int, q: int)
    requires Sorted(a) && Sorted(b)
    requires 0 <= p < q < |Merged(a, b)|
    ensures |Origins(a, b)| == |Merged(a, b)|
    ensures !Origins(a, b)[p] && Origins(a, b)[q] ==> Merged(a, b)[p] < Merged(a, b)[q]
    decreases |a| + |b|
  {
    MergeInterleaves(a, b);
    var r, o := Merged(a, b), Origins(a, b);
    if TakeSecond(a, b) {
      var r', o' := Merged(a, b[1..]), Origins(a, b[1..]);
      assert r == [b[0]] + r' && o == [false] + o';
      assert Sorted(b[1..]);
      if p == 0 {
        if o[q] {
          OriginValue(a, b[1..], q - 1);
          HeadIsLeast(a, r[q]);
        }
      } else {
        MergeStable(a, b[1..], p - 1, q - 1);
      }
    } else {
      var r', o' := Merged(a[1..], b), Origins(a[1..], b);
      assert r == [a[0]] + r' && o == [true] + o';
      assert Sorted(a[1..]);
      if p > 0 {
        MergeStable(a[1..], b, p - 1, q - 1);
      }
    }
  }

  /** `merge(numbers.begin(), numbers.begin() + mid, numbers.begin() + mid,
      numbers.end(), back_inserter(temp))` with `temp` initially empty: the
      two-finger loop, then the copy of whichever range is left. It reads
      `numbers` and changes nothing. */
  method MergeRanges(numbers: array<int>, mid: int) returns (temp: seq<int>)
    requires 0 <= mid <= numbers.Length
    ensures temp == Merged(numbers[..mid], numbers[mid..])
  {
    ghost var first, second := numbers[..mid], numbers[mid..];
    var i, j := 0, mid;
    temp := [];
    while i < mid && j < numbers.Length
      invariant 0 <= i <= mid <= j <= numbers.Length
      invariant temp + Merged(first[i..], second[j - mid..]) == Merged(first, second)
      decreases mid - i + numbers.Length - j
    {
      ghost var a, b := first[i..], second[j - mid..];
      MergeStep(a, b);
      assert a[0] == numbers[i] && b[0] == numbers[j];
      if numbers[j] < numbers[i] {
        assert b[1..] == second[j + 1 - mid..];
        assert (temp + [b[0]]) + Merged(a, b[1..]) == temp + Merged(a, b);
        temp := temp + [numbers[j]];
        j := j + 1;
      } else {
        assert a[1..] == first[i + 1..];
        assert (temp + [a[0]]) + Merged(a[1..], b) == temp + Merged(a, b);
        temp := temp + [numbers[i]];
        i := i + 1;
      }
    }
    // one of the two ranges is used up: copy the rest of the other
    if i < mid {
      assert second[j - mid..] == [];
      MergeEmptySecond(first[i..]);
      assert first[i..] == numbers[i..mid];
      temp := temp + numbers[i..mid];
    } else {
      assert first[i..] == [];
      MergeEmptyFirst(second[j - mid..]);
      assert second[j - mid..] == numbers[j..];
      temp := temp + numbers[j..];
    }
  }
}
