/** The distribution protocol of main.cpp (lines 73-89), seen from the data on
    the collector (rank 0): the chunk size `numbersSize / size`, the scatter of
    one chunk per rank, the local quickSort on every rank, the gather of the
    sorted chunks back to their offsets, and the final merge of [0, chunk) with
    [chunk, N). The ranks run one after another here; their chunks are
    disjoint, so the order in which they run does not change the data. */
module Coordinator {
  import opened Sorting
  import opened LocalSorter
  import opened Merger

  // ---------------------------------------------------------------------------
  // Chunk arithmetic

  /** The offset of rank `rank`'s chunk in the collector's buffer, that is
      `rank * chunk`, counted up chunk by chunk. */
  function Offset(chunk: nat, rank: nat): nat {
    if rank == 0 then 0 else Offset(chunk, rank - 1) + chunk
  }

  lemma {:induction false} OffsetIsProduct(chunk: nat, rank: nat)
    ensures Offset(chunk, rank) == rank * chunk
  {
    if rank > 0 {
      OffsetIsProduct(chunk, rank - 1);
      assert rank * chunk == (rank - 1) * chunk + chunk;
    }
  }

  /** `numbersSize / size`: the number of elements every rank receives. The
      chunks of all ranks fit in the buffer, fewer than `size` elements are
      left over after them, and the chunk is empty exactly when there are
      fewer elements than ranks. */
  function ChunkSize(n: nat, size: nat): (chunk: nat)
    requires 0 < size
    ensures Offset(chunk, size) <= n < Offset(chunk, size) + size
    ensures chunk == 0 <==> n < size
  {
    OffsetIsProduct(n / size, size);
    n / size
  }

  /** Chunk `k` ends where chunk `k + 1` starts, no later than the end of the
      first `ranks` chunks when `k < ranks`. */
  lemma {:induction false} OffsetMonotone(chunk: nat, k: nat, ranks: nat)
    requires k < ranks
    ensures Offset(chunk, k) + chunk <= Offset(chunk, ranks)
    decreases ranks
  {
    if k + 1 < ranks {
      OffsetMonotone(chunk, k, ranks - 1);
    }
  }

  // ---------------------------------------------------------------------------
  // What scatter / sort / gather does to the collector's buffer

  /** The first `count` chunks of `p`, each sorted on its own, one after the
      other. */
  ghost function SortChunks(p: seq<int>, chunk: nat, count: nat): (r: seq<int>)
    requires |p| == Offset(chunk, count)
    ensures |r| == |p|
    decreases count
  {
    if count == 0 then []
    else Sort(p[..chunk]) + SortChunks(p[chunk..], chunk, count - 1)
  }

  /** The collector's buffer after every one of `size` ranks has sorted its
      chunk: the chunks sorted, then the elements past the last chunk as they
      were. */
  ghost function Gathered(input: seq<int>, chunk: nat, size: nat): (r: seq<int>)
    requires Offset(chunk, size) <= |input|
    ensures |r| == |input|
  {
    var end := Offset(chunk, size);
    SortChunks(input[..end], chunk, size) + input[end..]
  }

  /** One more chunk sorted: the chunks before it keep their sorted form and the
      new chunk is appended sorted. */
  lemma {:induction false} SortChunksSnoc(p: seq<int>, q: seq<int>, chunk: nat, count: nat)
    requires |p| == Offset(chunk, count) && |q| == chunk
    ensures |p + q| == Offset(chunk, count + 1)
    ensures SortChunks(p + q, chunk, count + 1) == SortChunks(p, chunk, count) + Sort(q)
    decreases count
  {
    if count == 0 {
      assert p + q == q && q[..chunk] == q && q[chunk..] == [];
    } else {
      assert (p + q)[..chunk] == p[..chunk];
      assert (p + q)[chunk..] == p[chunk..] + q;
      SortChunksSnoc(p[chunk..], q, chunk, count - 1);
    }
  }

  /** Sorting chunks only rearranges them. */
  lemma {:induction false} SortChunksPermutes(p: seq<int>, chunk: nat, count: nat)
    requires |p| == Offset(chunk, count)
    ensures multiset(SortChunks(p, chunk, count)) == multiset(p)
    decreases count
  {
    if count > 0 {
      SortChunksPermutes(p[chunk..], chunk, count - 1);
      assert p == p[..chunk] + p[chunk..];
      assert multiset(p) == multiset(p[..chunk]) + multiset(p[chunk..]);
    }
  }

  /** A slice lying in the first part of a concatenation is a slice of that
      part, and so is one lying in the second part (at `i - |a|`, `j - |a|`). */
  lemma SliceOfAppend(a: seq<int>, b: seq<int>, i: int, j: int, bi: int, bj: int)
    requires 0 <= i <= j <= |a| + |b| && bi == i - |a| && bj == j - |a|
    ensures j <= |a| ==> (a + b)[i..j] == a[i..j]
    ensures |a| <= i ==> (a + b)[i..j] == b[bi..bj]
  {
  }

  /** A slice of a suffix is a slice of the whole (at `d + i`, `d + j`). */
  lemma SliceOfSuffix(s: seq<int>, d: int, i: int, j: int, si: int, sj: int)
    requires 0 <= d && 0 <= i <= j && d + j <= |s| && si == d + i && sj == d + j
    ensures s[d..][i..j] == s[si..sj]
  {
  }

  /** The chunk at the offset of rank `k` is that rank's chunk of `p`, sorted. */
  lemma {:induction false} SortChunksAt(p: seq<int>, chunk: nat, count: nat, k: nat)
    requires |p| == Offset(chunk, count) && k < count
    ensures Offset(chunk, k) + chunk <= |p|
    ensures var lo := Offset(chunk, k);
            SortChunks(p, chunk, count)[lo..lo + chunk] == Sort(p[lo..lo + chunk])
    decreases k
  {
    OffsetMonotone(chunk, k, count);
    var head, tail := Sort(p[..chunk]), SortChunks(p[chunk..], chunk, count - 1);
    assert SortChunks(p, chunk, count) == head + tail;
    if k == 0 {
      SliceOfAppend(head, tail, 0, chunk, -(chunk as int), 0);
      assert head[0..chunk] == head && p[0..chunk] == p[..chunk];
    } else {
      var lo, at := Offset(chunk, k - 1), Offset(chunk, k);
      assert at == chunk + lo;
      SortChunksAt(p[chunk..], chunk, count - 1, k - 1);
      SliceOfAppend(head, tail, at, at + chunk, lo, lo + chunk);
      SliceOfSuffix(p, chunk, lo, lo + chunk, at, at + chunk);
    }
  }

  /** The gather postcondition: rank k's slot holds rank k's chunk sorted,
      and everything past the last chunk is as it was. */
  lemma GatheredChunkSorted(input: seq<int>, chunk: nat, size: nat, k: nat)
    requires Offset(chunk, size) <= |input| && k < size
    ensures Offset(chunk, k) + chunk <= Offset(chunk, size)
    ensures var lo := Offset(chunk, k);
            Gathered(input, chunk, size)[lo..lo + chunk] == Sort(input[lo..lo + chunk])
    ensures var end := Offset(chunk, size);
            Gathered(input, chunk, size)[end..] == input[end..]
  {
    var end := Offset(chunk, size);
    var lo := Offset(chunk, k);
    var p := input[..end];
    SortChunksAt(p, chunk, size, k);
    var g := Gathered(input, chunk, size);
    assert g[lo..lo + chunk] == SortChunks(p, chunk, size)[lo..lo + chunk];
    assert p[lo..lo + chunk] == input[lo..lo + chunk];
  }

  /** Scatter, sort and gather only rearrange the buffer. */
  lemma GatheredPermutes(input: seq<int>, chunk: nat, size: nat)
    requires Offset(chunk, size) <= |input|
    ensures multiset(Gathered(input, chunk, size)) == multiset(input)
  {
    var end := Offset(chunk, size);
    SortChunksPermutes(input[..end], chunk, size);
    assert input == input[..end] + input[end..];
  }

  // ---------------------------------------------------------------------------
  // The protocol on arrays

  /** MPI_Scatter, for one rank: a fresh `localData` of `chunk` elements
      receives the chunk at `offset` of the collector's buffer. */
  method Scatter(numbers: array<int>, offset: nat, chunk: nat) returns (local: array<int>)
    requires offset + chunk <= numbers.Length
    ensures fresh(local)
    ensures local[..] == numbers[offset..offset + chunk]
  {
    local := new int[chunk];
    var k := 0;
    while k < chunk
      invariant 0 <= k <= chunk
      invariant forall m :: 0 <= m < k ==> local[m] == numbers[offset + m]
    {
      local[k] := numbers[offset + k];
      k := k + 1;
    }
  }

  /** MPI_Gather, for one rank: the rank's `localData` is written back at
      `offset` of the collector's buffer, and nothing else changes. */
  method Gather(local: array<int>, numbers: array<int>, offset: nat)
    requires local != numbers
    requires offset + local.Length <= numbers.Length
    modifies numbers
    ensures numbers[..] == old(numbers[..])[..offset] + local[..] + old(numbers[..])[offset + local.Length..]
  {
    var k := 0;
    while k < local.Length
      invariant 0 <= k <= local.Length
      invariant forall m :: 0 <= m < k ==> numbers[offset + m] == local[m]
      invariant forall m :: 0 <= m < numbers.Length && !(offset <= m < offset + k) ==> numbers[m] == old(numbers[m])
    {
      numbers[offset + k] := local[k];
      k := k + 1;
    }
    assert numbers[..] == old(numbers[..])[..offset] + local[..] + old(numbers[..])[offset + local.Length..];
  }

  /** One rank's share of the protocol: receive the chunk at `offset`, sort it
      with quickSort over [0, chunk - 1], send it back to the same offset. */
  method SortOneChunk(numbers: array<int>, offset: nat, chunk: nat)
    requires 0 < chunk && offset + chunk <= numbers.Length
    modifies numbers
    ensures var before := old(numbers[..]);
            numbers[..] == before[..offset] + Sort(before[offset..offset + chunk]) + before[offset + chunk..]
  {
    ghost var before := numbers[..];
    var local := Scatter(numbers, offset, chunk);
    ghost var received := local[..];
    assert received == before[offset..offset + chunk];
    QuickSort(local, 0, chunk - 1);
    assert local[..] == local[0..chunk] && received == received[0..chunk];
    SortCharacterized(received, local[..]);
    Gather(local, numbers, offset);
  }

  /** The three parts of `done + rest` around the first `chunk` elements of
      `rest`. */
  lemma ConcatParts(done: seq<int>, rest: seq<int>, chunk: int)
    requires 0 <= chunk <= |rest|
    ensures (done + rest)[..|done|] == done
    ensures (done + rest)[|done|..|done| + chunk] == rest[..chunk]
    ensures (done + rest)[|done| + chunk..] == rest[chunk..]
  {
  }

  /** The first `chunk` elements of a suffix, and what follows them. */
  lemma SuffixParts(s: seq<int>, offset: int, chunk: int)
    requires 0 <= offset && 0 <= chunk && offset + chunk <= |s|
    ensures s[offset..][..chunk] == s[offset..offset + chunk]
    ensures s[offset..][chunk..] == s[offset + chunk..]
  {
  }

  /** Sorting the chunk after the first `rank` ones of the buffer that the
      first `rank` ranks left gives the buffer that `rank + 1` ranks leave. */
  lemma GatheredStep(input: seq<int>, chunk: nat, rank: nat, before: seq<int>, after: seq<int>)
    requires Offset(chunk, rank) + chunk <= |input|
    requires before == Gathered(input, chunk, rank)
    requires var lo := Offset(chunk, rank);
             after == before[..lo] + Sort(before[lo..lo + chunk]) + before[lo + chunk..]
    ensures Offset(chunk, rank + 1) <= |input|
    ensures after == Gathered(input, chunk, rank + 1)
  {
    var offset := Offset(chunk, rank);
    var p, q := input[..offset], input[offset..offset + chunk];
    var done, rest := SortChunks(p, chunk, rank), input[offset..];
    assert before == done + rest;
    ConcatParts(done, rest, chunk);
    SuffixParts(input, offset, chunk);
    assert after == done + Sort(q) + input[offset + chunk..];
    SortChunksSnoc(p, q, chunk, rank);
    assert p + q == input[..offset + chunk];
  }

  /** Rank `rank`'s turn in the loop over ranks: the chunks of the ranks
      before it are sorted, its own chunk is the input's, and afterwards its
      chunk is sorted too. */
  method SortNextChunk(numbers: array<int>, ghost input: seq<int>, chunk: nat, rank: nat, offset: nat)
    requires 0 < chunk && offset == Offset(chunk, rank) && offset + chunk <= |input|
    requires numbers[..] == Gathered(input, chunk, rank)
    modifies numbers
    ensures offset + chunk == Offset(chunk, rank + 1)
    ensures numbers[..] == Gathered(input, chunk, rank + 1)
  {
    ghost var before := numbers[..];
    SortOneChunk(numbers, offset, chunk);
    GatheredStep(input, chunk, rank, before, numbers[..]);
  }

  /** The loop over ranks 0 .. size-1 of lines 77-83, each scattering,
      sorting and gathering its chunk of `chunk` elements. */
  method SortEveryChunk(numbers: array<int>, chunk: nat, size: nat)
    requires 0 < chunk && Offset(chunk, size) <= numbers.Length
    modifies numbers
    ensures numbers[..] == Gathered(old(numbers[..]), chunk, size)
  {
    ghost var input := numbers[..];
    assert Gathered(input, chunk, 0) == [] + input[0..] == input;
    var rank, offset := 0, 0;
    while rank < size
      invariant rank <= size && offset == Offset(chunk, rank) <= Offset(chunk, size)
      invariant numbers[..] == Gathered(input, chunk, rank)
    {
      OffsetMonotone(chunk, rank, size);
      SortNextChunk(numbers, input, chunk, rank, offset);
      rank, offset := rank + 1, offset + chunk;
    }
  }

  /** Lines 73-83 on the collector's buffer: chunk size, then every rank's
      scatter, quickSort and gather. Every rank must receive a non-empty
      chunk: with fewer elements than ranks the chunk is empty and quickSort is
      called with right = -1, where it reads arr[0] of an empty vector. */
  method ScatterSortGather(numbers: array<int>, size: nat) returns (chunk: nat)
    requires 1 <= size <= numbers.Length
    modifies numbers
    ensures chunk == ChunkSize(numbers.Length, size)
    ensures numbers[..] == Gathered(old(numbers[..]), chunk, size)
  {
    chunk := ChunkSize(numbers.Length, size);
    SortEveryChunk(numbers, chunk, size);
  }

  /** Lines 85-89 on the collector: merge [0, chunk) with [chunk, N) into a
      fresh vector and assign it back to `numbers` (same length). */
  method MergeOnCollector(numbers: array<int>, chunk: nat)
    requires chunk <= numbers.Length
    modifies numbers
    ensures numbers[..] == Merged(old(numbers[..chunk]), old(numbers[chunk..]))
  {
    var temp := MergeRanges(numbers, chunk);
    forall k | 0 <= k < numbers.Length {
      numbers[k] := temp[k];
    }
    assert numbers[..] == temp;
  }

  /** The whole protocol, lines 73-89, on the collector's buffer. */
  method DistributedSort(numbers: array<int>, size: nat)
    requires 1 <= size <= numbers.Length
    modifies numbers
    ensures numbers[..] == Outcome(old(numbers[..]), size)
  {
    var chunk := ScatterSortGather(numbers, size);
    MergeOnCollector(numbers, chunk);
  }

  // ---------------------------------------------------------------------------
  // What the protocol computes

  /** The final buffer of the collector for `size` ranks. */
  ghost function Outcome(input: seq<int>, size: nat): (r: seq<int>)
    requires 1 <= size <= |input|
    ensures |r| == |input|
  {
    var chunk := ChunkSize(|input|, size);
    var g := Gathered(input, chunk, size);
    Merged(g[..chunk], g[chunk..])
  }

  /** Nothing is lost: the final buffer is a rearrangement of the input for
      every number of ranks, the elements past the last full chunk included. */
  lemma OutcomePermutes(input: seq<int>, size: nat)
    requires 1 <= size <= |input|
    ensures multiset(Outcome(input, size)) == multiset(input)
  {
    var chunk := ChunkSize(|input|, size);
    var g := Gathered(input, chunk, size);
    GatheredPermutes(input, chunk, size);
    MergePermutes(g[..chunk], g[chunk..]);
    assert g == g[..chunk] + g[chunk..];
  }

  /** When every rank receives a single element, the gather gives the buffer
      back unchanged. */
  lemma SingleElementChunks(input: seq<int>, size: nat)
    requires 1 <= size && Offset(1, size) <= |input|
    ensures Gathered(input, 1, size) == input
  {
    var g := Gathered(input, 1, size);
    var end := Offset(1, size);
    OffsetIsProduct(1, size);
    GatheredChunkSorted(input, 1, size, 0);
    forall k | 0 <= k < |input| ensures g[k] == input[k] {
      if k < end {
        OffsetIsProduct(1, k);
        GatheredChunkSorted(input, 1, size, k);
        SortIdempotent(input[k..k + 1]);
        assert g[k] == g[k..k + 1][0];
      } else {
        assert g[k] == g[end..][k - end];
      }
    }
  }

  /** Three ranks on `3 2 1`: each rank's chunk is one element, so nothing is
      sorted before the merge, and merging `3` with `2 1` gives `2 1 3`. */
  lemma ThreeRanksUnsorted()
    ensures Outcome([3, 2, 1], 3) == [2, 1, 3]
    ensures !Sorted(Outcome([3, 2, 1], 3))
  {
    var input := [3, 2, 1];
    assert ChunkSize(3, 3) == 1;
    SingleElementChunks(input, 3);
    assert input[..1] == [3] && input[1..] == [2, 1];
    assert Merged([3], [2, 1]) == [2] + Merged([3], [1]);
    assert Merged([3], [1]) == [1] + Merged([3], []);
    MergeEmptySecond([3]);
    assert Outcome(input, 3) == Merged(input[..1], input[1..]) == [2, 1, 3];
    assert Outcome(input, 3)[0] > Outcome(input, 3)[1];
  }

  /** Two ranks on the odd-length `2 1 0`: the chunks are `2` and `1`, the
      trailing `0` is never sorted, and the merge of `2` with `1 0` gives
      `1 0 2`. */
  lemma TwoRanksOddLengthUnsorted()
    ensures Outcome([2, 1, 0], 2) == [1, 0, 2]
    ensures !Sorted(Outcome([2, 1, 0], 2))
  {
    var input := [2, 1, 0];
    assert ChunkSize(3, 2) == 1;
    SingleElementChunks(input, 2);
    assert input[..1] == [2] && input[1..] == [1, 0];
    assert Merged([2], [1, 0]) == [1] + Merged([2], [0]);
    assert Merged([2], [0]) == [0] + Merged([2], []);
    MergeEmptySecond([2]);
    assert Outcome(input, 2) == Merged(input[..1], input[1..]) == [1, 0, 2];
    assert Outcome(input, 2)[0] > Outcome(input, 2)[1];
  }

  /** With one rank the single chunk is the whole input, and the result is the
      input sorted. */
  lemma OneRankSorts(input: seq<int>)
    requires 1 <= |input|
    ensures Outcome(input, 1) == Sort(input)
  {
    var n := |input|;
    assert ChunkSize(n, 1) == n;
    assert Offset(n, 1) == n;
    var g := Gathered(input, n, 1);
    GatheredChunkSorted(input, n, 1, 0);
    assert g[..n] == g[0..n] && input[0..n] == input;
    MergeEmptySecond(g[..n]);
  }

  /** With two ranks and an even number of elements the two sorted halves are
      all there is, and their merge is the input sorted. */
  lemma TwoRanksSort(input: seq<int>)
    requires 2 <= |input| && |input| % 2 == 0
    ensures Outcome(input, 2) == Sort(input)
  {
    var n := |input|;
    var chunk := ChunkSize(n, 2);
    assert chunk + chunk == n;
    assert Offset(chunk, 1) == chunk && Offset(chunk, 2) == n;
    var g := Gathered(input, chunk, 2);
    GatheredChunkSorted(input, chunk, 2, 0);
    GatheredChunkSorted(input, chunk, 2, 1);
    SortSorted(input[0..chunk]);
    SortSorted(input[chunk..chunk + chunk]);
    assert g[..chunk] == g[0..chunk];
    assert g[chunk..] == g[chunk..chunk + chunk];
    MergeSorted(g[..chunk], g[chunk..]);
    OutcomePermutes(input, 2);
    SortCharacterized(input, Outcome(input, 2));
  }

  // ---------------------------------------------------------------------------
  // Merging every chunk: what the program evidently means to compute

  /** Merges the chunks of `p` one into the next, the first outermost, with
      `last` merged in at the end. */
  ghost function MergeChunks(p: seq<int>, chunk: nat, count: nat, last: seq<int>): (r: seq<int>)
    requires |p| == Offset(chunk, count)
    ensures |r| == |p| + |last|
    decreases count
  {
    if count == 0 then last
    else Merged(p[..chunk], MergeChunks(p[chunk..], chunk, count - 1, last))
  }

  /** The collector's result if it merged every gathered chunk and the sorted
      remainder, instead of only [0, chunk) with [chunk, N). */
  ghost function CorrectedOutcome(input: seq<int>, size: nat): (r: seq<int>)
    requires 1 <= size <= |input|
    ensures |r| == |input|
  {
    var chunk := ChunkSize(|input|, size);
    var end := Offset(chunk, size);
    var g := Gathered(input, chunk, size);
    MergeChunks(g[..end], chunk, size, Sort(g[end..]))
  }

  /** Merging sorted chunks one into the next, and a sorted remainder last,
      gives a sorted rearrangement of all of them. */
  lemma {:induction false} MergeChunksSorts(q: seq<int>, chunk: nat, count: nat, last: seq<int>)
    requires |q| == Offset(chunk, count) && Sorted(last)
    ensures Sorted(MergeChunks(SortChunks(q, chunk, count), chunk, count, last))
    ensures multiset(MergeChunks(SortChunks(q, chunk, count), chunk, count, last)) == multiset(q) + multiset(last)
    decreases count
  {
    if count > 0 {
      var r := SortChunks(q, chunk, count);
      var head := Sort(q[..chunk]);
      var rest := MergeChunks(SortChunks(q[chunk..], chunk, count - 1), chunk, count - 1, last);
      assert r[..chunk] == head && r[chunk..] == SortChunks(q[chunk..], chunk, count - 1);
      MergeChunksSorts(q[chunk..], chunk, count - 1, last);
      SortSorted(q[..chunk]);
      MergeSorted(head, rest);
      MergePermutes(head, rest);
      assert q == q[..chunk] + q[chunk..];
    }
  }

  /** Merging every chunk gives the sorted input for every number of ranks. */
  lemma CorrectedOutcomeSorts(input: seq<int>, size: nat)
    requires 1 <= size <= |input|
    ensures CorrectedOutcome(input, size) == Sort(input)
  {
    var chunk := ChunkSize(|input|, size);
    var end := Offset(chunk, size);
    var g := Gathered(input, chunk, size);
    assert g[..end] == SortChunks(input[..end], chunk, size) && g[end..] == input[end..];
    SortSorted(input[end..]);
    MergeChunksSorts(input[..end], chunk, size, Sort(input[end..]));
    assert input == input[..end] + input[end..];
    SortCharacterized(input, CorrectedOutcome(input, size));
  }
}
