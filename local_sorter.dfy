/** The local sorter of main.cpp: `quickSort(arr, left, right)`, an in-place
    partition-exchange sort over the closed range [left, right] of a vector of
    ints whose pivot is the middle element `arr[(left + right) / 2]`. The vector
    is an `array<int>` (the sort never changes its length); the only mutation is
    the exchange of two elements. */
module LocalSorter {
  import opened Sorting

  // ---------------------------------------------------------------------------
  // Vocabulary: segments of snapshots `a[..]` of the array

  /** `s` and `t` agree everywhere except possibly on [lo, hi). */
  predicate SameOutside(s: seq<int>, t: seq<int>, lo: int, hi: int) {
    |s| == |t| && forall k :: 0 <= k < |s| && !(lo <= k < hi) ==> s[k] == t[k]
  }

  /** `after` is `before` with its segment [lo, hi) sorted in place: the segment
      is non-decreasing, holds the same elements as before (as a multiset), and
      nothing outside it changed. */
  predicate SortedSegment(after: seq<int>, before: seq<int>, lo: int, hi: int) {
    && 0 <= lo <= hi <= |before|
    && SameOutside(after, before, lo, hi)
    && Sorted(after[lo..hi])
    && multiset(after[lo..hi]) == multiset(before[lo..hi])
  }

  /** `after` is `before` with [left, right] partitioned around `pivot`: the
      cursors have crossed (`j < i`), both recursive ranges [left, j] and
      [i, right] are strictly shorter than [left, right], everything left of
      `i` is at most the pivot, everything right of `j` is at least the pivot,
      and the segment has only been permuted. */
  predicate Partitioned(after: seq<int>, before: seq<int>, left: int, right: int,
                        pivot: int, i: int, j: int) {
    && 0 <= left <= right < |before|
    && left < i <= right + 1 && left - 1 <= j < right && j < i
    && SameOutside(after, before, left, right + 1)
    && multiset(after[left..right + 1]) == multiset(before[left..right + 1])
    && (forall k :: left <= k < i ==> after[k] <= pivot)
    && (forall k :: j < k <= right ==> pivot <= after[k])
  }

  // ---------------------------------------------------------------------------
  // The algorithm

  /** `swap(arr[i], arr[j])`: exchanges two elements of the segment [lo, hi),
      which keeps the segment's elements and everything else. */
  method Swap(a: array<int>, i: int, j: int, ghost lo: int, ghost hi: int)
    requires 0 <= lo <= i < hi <= a.Length && lo <= j < hi
    modifies a
    ensures a[i] == old(a[j]) && a[j] == old(a[i])
    ensures forall k :: 0 <= k < a.Length && k != i && k != j ==> a[k] == old(a[k])
    ensures multiset(a[lo..hi]) == multiset(old(a[lo..hi]))
  {
    ghost var before := a[..];
    a[i], a[j] := a[j], a[i];
    assert a[..] == before[i := before[j]][j := before[i]];
    ExchangePermutes(before, i, j, lo, hi);
  }

  /** The scan `while (arr[i] < pivot) i++`: moves right from `i` to the first
      element that is not smaller than the pivot. It cannot run past `stop`, an
      element already known to be at least the pivot. */
  method ScanUp(a: array<int>, i: int, pivot: int, ghost stop: int) returns (k: int)
    requires 0 <= i <= stop < a.Length && pivot <= a[stop]
    ensures i <= k <= stop && pivot <= a[k]
    ensures forall m :: i <= m < k ==> a[m] < pivot
  {
    k := i;
    while a[k] < pivot
      invariant i <= k <= stop
      invariant forall m :: i <= m < k ==> a[m] < pivot
      decreases stop - k
    {
      k := k + 1;
    }
  }

  /** The scan `while (arr[j] > pivot) j--`: moves left from `j` to the first
      element that is not larger than the pivot. It cannot run past `stop`, an
      element already known to be at most the pivot. */
  method ScanDown(a: array<int>, j: int, pivot: int, ghost stop: int) returns (k: int)
    requires 0 <= stop <= j < a.Length && a[stop] <= pivot
    ensures stop <= k <= j && a[k] <= pivot
    ensures forall m :: k < m <= j ==> pivot < a[m]
  {
    k := j;
    while a[k] > pivot
      invariant stop <= k <= j
      invariant forall m :: k < m <= j ==> pivot < a[m]
      decreases k - stop
    {
      k := k - 1;
    }
  }

  /** The loop invariant of the partition loop, on a snapshot `s` of the array
      and its original contents `orig`: the cursors stay inside [left, right]
      (at most one step outside), the scans have a stop in range while the
      cursors have not crossed, the elements left of `i` are at most the pivot
      and the elements right of `j` are at least the pivot, and [left, right]
      has only been permuted. */
  ghost predicate PartitionInvariant(s: seq<int>, orig: seq<int>, left: int, right: int, mid: int,
                                     pivot: int, i: int, j: int, stopI: int, stopJ: int)
  {
    && |orig| == |s| && 0 <= left <= mid <= right < |s|
    && left <= i <= right + 1 && left - 1 <= j <= right
    && ((i == left && j == right && stopI == mid && stopJ == mid) || (left < i && j < right))
    && (i <= j ==> i <= stopI <= right && pivot <= s[stopI] && left <= stopJ <= j && s[stopJ] <= pivot)
    && (forall k :: left <= k < i ==> s[k] <= pivot)
    && (forall k :: j < k <= right ==> pivot <= s[k])
    && multiset(s[left..right + 1]) == multiset(orig[left..right + 1])
    && SameOutside(s, orig, left, right + 1)
  }

  /** The scans of one round stopped at `i'` and `j'` without crossing; the
      exchange of those two elements and the step of both cursors keep the
      invariant, with the exchanged elements as the next stops. */
  lemma ExchangeStep(s: seq<int>, t: seq<int>, orig: seq<int>, left: int, right: int, mid: int,
                     pivot: int, i: int, j: int, stopI: int, stopJ: int, i': int, j': int)
    requires PartitionInvariant(s, orig, left, right, mid, pivot, i, j, stopI, stopJ)
    requires i <= i' <= j' <= j && pivot <= s[i'] && s[j'] <= pivot
    requires forall m :: i <= m < i' ==> s[m] < pivot
    requires forall m :: j' < m <= j ==> pivot < s[m]
    requires t == s[i' := s[j']][j' := s[i']]
    ensures PartitionInvariant(t, orig, left, right, mid, pivot, i' + 1, j' - 1, j', i')
  {
    // Dafny also finds this proof unaided, but at a cost that varies by orders
    // of magnitude between solver runs; the steps below keep it small.
    ExchangePermutes(s, i', j', left, right + 1);
    assert t[i'] <= pivot <= t[j'];
    forall k | left <= k < i' + 1 ensures t[k] <= pivot {
      if k < i' {
        assert t[k] == s[k];
      }
    }
    forall k | j' - 1 < k <= right ensures pivot <= t[k] {
      if j' < k {
        assert t[k] == s[k];
      }
    }
    forall k | 0 <= k < |t| && !(left <= k <= right) ensures t[k] == orig[k] {
      assert t[k] == s[k];
    }
  }

  /** One round of the partition loop: both scans, then the exchange and the
      step of both cursors if they have not crossed. */
  method PartitionRound(a: array<int>, ghost orig: seq<int>, left: int, right: int, ghost mid: int,
                        pivot: int, i: int, j: int, ghost stopI: int, ghost stopJ: int)
    returns (i': int, j': int, ghost stopI': int, ghost stopJ': int)
    requires PartitionInvariant(a[..], orig, left, right, mid, pivot, i, j, stopI, stopJ) && i <= j
    modifies a
    ensures PartitionInvariant(a[..], orig, left, right, mid, pivot, i', j', stopI', stopJ')
    ensures j' - i' < j - i
  {
    i' := ScanUp(a, i, pivot, stopI);
    j' := ScanDown(a, j, pivot, stopJ);
    stopI', stopJ' := stopI, stopJ;
    if i' <= j' {
      ghost var s := a[..];
      Swap(a, i', j', left, right + 1);
      assert a[..] == s[i' := s[j']][j' := s[i']];
      ExchangeStep(s, a[..], orig, left, right, mid, pivot, i, j, stopI, stopJ, i', j');
      stopI', stopJ' := j', i';
      i', j' := i' + 1, j' - 1;
    }
  }

  /** The partition loop of quickSort, pivot `arr[(left + right) / 2]`.
      Neither scan leaves [left, right]: before the first exchange both stop at
      the pivot itself at the latest, afterwards at the element the previous
      exchange put in place. */
  method Partition(a: array<int>, left: int, right: int) returns (pivot: int, i: int, j: int)
    requires 0 <= left <= right < a.Length
    modifies a
    ensures pivot == old(a[(left + right) / 2])
    ensures left < i <= right + 1 && left - 1 <= j < right && j < i
    ensures forall k :: left <= k < i ==> a[k] <= pivot
    ensures forall k :: j < k <= right ==> pivot <= a[k]
    ensures multiset(a[left..right + 1]) == multiset(old(a[left..right + 1]))
    ensures SameOutside(a[..], old(a[..]), left, right + 1)
  {
    ghost var orig := a[..];
    var mid := (left + right) / 2;
    pivot := a[mid];
    i, j := left, right;
    // stop positions for the two scans: an element >= pivot at or after i,
    // and an element <= pivot at or before j (at first both are the pivot)
    ghost var stopI, stopJ := mid, mid;
    while i <= j
      invariant PartitionInvariant(a[..], orig, left, right, mid, pivot, i, j, stopI, stopJ)
      decreases j - i
    {
      i, j, stopI, stopJ := PartitionRound(a, orig, left, right, mid, pivot, i, j, stopI, stopJ);
    }
  }

  /** quickSort(arr, left, right): afterwards arr[left..right] is in
      non-decreasing order and holds the same elements as before, and every
      other element is unchanged. The caller must supply a non-empty range inside
      the vector: the source reads arr[(left + right) / 2] unconditionally. Each
      recursive call is on a strictly shorter range, and a range of one element
      makes none. */
  method QuickSort(a: array<int>, left: int, right: int)
    requires 0 <= left <= right < a.Length
    modifies a
    ensures SortedSegment(a[..], old(a[..]), left, right + 1)
    decreases right - left
  {
    ghost var start := a[..];
    var pivot, i, j := Partition(a, left, right);
    ghost var parted := a[..];
    assert Partitioned(parted, start, left, right, pivot, i, j);
    if left < j {
      QuickSort(a, left, j);
    } else {
      ShortSegmentSorted(parted, left, j + 1);
    }
    ghost var leftDone := a[..];
    if i < right {
      QuickSort(a, i, right);
    } else {
      ShortSegmentSorted(leftDone, i, right + 1);
    }
    Assemble(start, parted, leftDone, a[..], left, right, pivot, i, j);
  }

  /** quickSort on a range that is already non-decreasing leaves the whole
      vector as it was. */
  method QuickSortSorted(a: array<int>, left: int, right: int)
    requires 0 <= left <= right < a.Length && Sorted(a[left..right + 1])
    modifies a
    ensures a[..] == old(a[..])
  {
    ghost var start := a[..];
    QuickSort(a, left, right);
    SortedSegmentUnchanged(a[..], start, left, right + 1);
  }

  // ---------------------------------------------------------------------------
  // The correctness argument of the recursion

  /** A segment of at most one element is sorted as it stands, which is why
      quickSort makes no call on it. */
  lemma ShortSegmentSorted(s: seq<int>, lo: int, hi: int)
    requires 0 <= lo <= hi <= |s| && hi - lo <= 1
    ensures SortedSegment(s, s, lo, hi)
  {
  }

  /** Sorting in place a segment that is already non-decreasing changes
      nothing: the only sorted rearrangement of it is itself. */
  lemma SortedSegmentUnchanged(after: seq<int>, before: seq<int>, lo: int, hi: int)
    requires SortedSegment(after, before, lo, hi) && Sorted(before[lo..hi])
    ensures after == before
  {
    SortedPermutationUnique(after[lo..hi], before[lo..hi]);
    forall k | 0 <= k < |after| ensures after[k] == before[k] {
      if lo <= k < hi {
        assert after[k] == after[lo..hi][k - lo] && before[k] == before[lo..hi][k - lo];
      }
    }
  }

  /** The recursion step: after partitioning, sorting [left, j] in place and
      then [i, right] in place sorts [left, right] in place. */
  lemma Assemble(start: seq<int>, parted: seq<int>, leftDone: seq<int>, final: seq<int>,
                 left: int, right: int, pivot: int, i: int, j: int)
    requires Partitioned(parted, start, left, right, pivot, i, j)
    requires SortedSegment(leftDone, parted, left, j + 1)
    requires SortedSegment(final, leftDone, i, right + 1)
    ensures SortedSegment(final, start, left, right + 1)
  {
    AssembleOrdered(start, parted, leftDone, final, left, right, pivot, i, j);
    AssemblePermuted(start, parted, leftDone, final, left, right, pivot, i, j);
  }

  /** The two sorted parts, around the pivot, make [left, right] sorted. */
  lemma AssembleOrdered(start: seq<int>, parted: seq<int>, leftDone: seq<int>, final: seq<int>,
                        left: int, right: int, pivot: int, i: int, j: int)
    requires Partitioned(parted, start, left, right, pivot, i, j)
    requires SortedSegment(leftDone, parted, left, j + 1)
    requires SortedSegment(final, leftDone, i, right + 1)
    ensures Sorted(final[left..right + 1])
  {
    SortedStep(parted, leftDone, left, j + 1, pivot);
    SortedStep(leftDone, final, i, right + 1, pivot);
    AssembleOrder(final, left, right, pivot, i, j);
    BetweenSortedSlice(final, left, right + 1);
  }

  /** Partitioning and the two recursive sorts only permute [left, right] and
      leave everything else alone. */
  lemma AssemblePermuted(start: seq<int>, parted: seq<int>, leftDone: seq<int>, final: seq<int>,
                         left: int, right: int, pivot: int, i: int, j: int)
    requires Partitioned(parted, start, left, right, pivot, i, j)
    requires SortedSegment(leftDone, parted, left, j + 1)
    requires SortedSegment(final, leftDone, i, right + 1)
    ensures SameOutside(final, start, left, right + 1)
    ensures multiset(final[left..right + 1]) == multiset(start[left..right + 1])
  {
    PermutedWithin(leftDone, parted, left, left, j + 1, right + 1);
    PermutedWithin(final, leftDone, left, i, right + 1, right + 1);
  }

  /** What one recursive call does to the segment [lo, hi) it sorts, seen from
      the whole vector: the segment becomes sorted and keeps every bound that
      held of its old elements. */
  lemma SortedStep(before: seq<int>, after: seq<int>, lo: int, hi: int, x: int)
    requires SortedSegment(after, before, lo, hi)
    ensures SortedBetween(after, lo, hi)
    ensures (forall k :: lo <= k < hi ==> before[k] <= x) ==> forall k :: lo <= k < hi ==> after[k] <= x
    ensures (forall k :: lo <= k < hi ==> x <= before[k]) ==> forall k :: lo <= k < hi ==> x <= after[k]
  {
    SortedSliceBetween(after, lo, hi);
    PermutationKeepsBounds(after[lo..hi], before[lo..hi], x);
    if forall k :: lo <= k < hi ==> before[k] <= x {
      assert AllAtMost(before[lo..hi], x);
      forall k | lo <= k < hi ensures after[k] <= x {
        assert after[lo..hi][k - lo] <= x;
      }
    }
    if forall k :: lo <= k < hi ==> x <= before[k] {
      assert AllAtLeast(before[lo..hi], x);
      forall k | lo <= k < hi ensures x <= after[k] {
        assert after[lo..hi][k - lo] >= x;
      }
    }
  }

  /** `s` is non-decreasing on the index range [lo, hi), stated on the indices
      of the whole sequence rather than on the slice `s[lo..hi]`, so that facts
      about neighbouring ranges combine without index shifts;
      `SortedSliceBetween` and `BetweenSortedSlice` relate it to `Sorted`. */
  predicate SortedBetween(s: seq<int>, lo: int, hi: int) {
    forall p, q :: lo <= p < q < hi && 0 <= p && q < |s| ==> s[p] <= s[q]
  }

  /** Two sorted parts around a pivot make a sorted whole: everything before
      `i` is at most the pivot, everything after `j` at least the pivot. */
  lemma AssembleOrder(s: seq<int>, left: int, right: int, pivot: int, i: int, j: int)
    requires 0 <= left < i <= right + 1 < |s| + 1 && left - 1 <= j < i
    requires SortedBetween(s, left, j + 1) && SortedBetween(s, i, right + 1)
    requires forall k :: left <= k < i ==> s[k] <= pivot
    requires forall k :: j < k <= right ==> pivot <= s[k]
    ensures SortedBetween(s, left, right + 1)
  {
  }

  lemma SortedSliceBetween(s: seq<int>, lo: int, hi: int)
    requires 0 <= lo <= hi <= |s| && Sorted(s[lo..hi])
    ensures SortedBetween(s, lo, hi)
  {
  }

  lemma BetweenSortedSlice(s: seq<int>, lo: int, hi: int)
    requires 0 <= lo <= hi <= |s| && SortedBetween(s, lo, hi)
    ensures Sorted(s[lo..hi])
  {
  }

  /** Every element of `s` is at most `x`. */
  predicate AllAtMost(s: seq<int>, x: int) {
    forall k :: 0 <= k < |s| ==> s[k] <= x
  }

  /** Every element of `s` is at least `x`. */
  predicate AllAtLeast(s: seq<int>, x: int) {
    forall k :: 0 <= k < |s| ==> x <= s[k]
  }

  /** A permutation keeps every bound that held of all the elements. */
  lemma PermutationKeepsBounds(s: seq<int>, t: seq<int>, x: int)
    requires multiset(s) == multiset(t)
    ensures AllAtMost(t, x) ==> AllAtMost(s, x)
    ensures AllAtLeast(t, x) ==> AllAtLeast(s, x)
  {
    forall k | 0 <= k < |s| ensures s[k] in t {
      assert s[k] in multiset(s);
    }
  }

  /** Permuting the segment [mid1, mid2) of `t`, and changing nothing else,
      permutes every enclosing segment [lo, hi) of `t`. */
  lemma PermutedWithin(s: seq<int>, t: seq<int>, lo: int, mid1: int, mid2: int, hi: int)
    requires 0 <= lo <= mid1 <= mid2 <= hi <= |s|
    requires SameOutside(s, t, mid1, mid2)
    requires multiset(s[mid1..mid2]) == multiset(t[mid1..mid2])
    ensures multiset(s[lo..hi]) == multiset(t[lo..hi])
  {
    assert s[lo..mid1] == t[lo..mid1];
    assert s[mid2..hi] == t[mid2..hi];
    assert s[lo..hi] == s[lo..mid1] + s[mid1..mid2] + s[mid2..hi];
    assert t[lo..hi] == t[lo..mid1] + t[mid1..mid2] + t[mid2..hi];
  }

  /** Exchanging two elements of the segment [lo, hi) permutes the segment. */
  lemma ExchangePermutes(s: seq<int>, i: int, j: int, lo: int, hi: int)
    requires 0 <= lo <= i < hi <= |s| && lo <= j < hi
    ensures multiset(s[i := s[j]][j := s[i]][lo..hi]) == multiset(s[lo..hi])
  {
    // not needed for validity; stating the exchange on the slice makes the
    // proof several times cheaper
    var t := s[lo..hi];
    assert s[i := s[j]][j := s[i]][lo..hi] == t[i - lo := t[j - lo]][j - lo := t[i - lo]];
  }
}
