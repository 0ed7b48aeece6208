/**
 * The orchestration: the per-chunk worker and the whole sort. The workers, which
 * the source runs as one thread per chunk, run here one chunk after another; the
 * chunk lemmas show that their slot ranges are disjoint and cover every bucket.
 */
module ParallelBucketSort {
  import opened Ordering
  import opened InsertionSort
  import opened BucketTable
  import opened Chunks
  import opened Merge

  /**
   * What a worker leaves in a result slot for a bucket chain: the empty marker
   * when the bucket received no values, otherwise a sorted array of exactly them.
   */
  ghost predicate SlotHolds(slot: array?<int>, list: NodeList)
    reads slot
  {
    if Payload(list) == [] then slot == null
    else slot != null && Sorted(slot[..]) && multiset(slot[..]) == multiset(Payload(list))
  }

  /** Every value of s names one of the buckets 0 .. n - 1. */
  ghost predicate IndicesBelow(s: seq<int>, divisor: int, n: int)
    requires divisor > 0
  {
    forall k :: 0 <= k < |s| ==> 0 <= BucketIndex(s[k], divisor) < n
  }

  /** Every chain is a sentinel with its bucket's share of s pushed on, newest first. */
  ghost predicate ChainsHold(chains: seq<NodeList>, s: seq<int>, divisor: int)
    requires divisor > 0
  {
    forall b :: 0 <= b < |chains| ==> chains[b].Node? && Payload(chains[b]) == Reverse(BucketValues(s, divisor, b))
  }

  /**
   * Once every slot holds its bucket's chain sorted, and every chain holds its
   * bucket's share of s, the slots are sorted buckets of s.
   */
  lemma SlotsAreSortedBuckets(arr: array<array?<int>>, chains: seq<NodeList>, s: seq<int>, divisor: int)
    requires divisor > 0 && arr.Length == |chains|
    requires ChainsHold(chains, s, divisor)
    requires forall b :: 0 <= b < arr.Length ==> SlotHolds(arr[b], chains[b])
    ensures SortedBuckets(SlotContents(arr), s, divisor)
  {
    var ss := SlotContents(arr);
    forall b | 0 <= b < |ss|
      ensures Sorted(ss[b]) && multiset(ss[b]) == multiset(BucketValues(s, divisor, b))
    {
      ReverseMultiset(BucketValues(s, divisor, b));
      assert ss[b] == Slot(arr[b]);
    }
  }

  /**
   * Once every slot holds its bucket's chain sorted, laying the slots end to end
   * gives a sorted arrangement of the whole input, exactly as long as it.
   */
  lemma SlotsMergeSorted(arr: array<array?<int>>, chains: seq<NodeList>, s: seq<int>, divisor: int)
    requires divisor > 0 && arr.Length == |chains|
    requires IndicesBelow(s, divisor, arr.Length)
    requires ChainsHold(chains, s, divisor)
    requires forall b :: 0 <= b < arr.Length ==> SlotHolds(arr[b], chains[b])
    ensures Sorted(Concat(SlotContents(arr)))
    ensures multiset(Concat(SlotContents(arr))) == multiset(s)
    ensures TotalLength(SlotContents(arr)) == |s|
  {
    SlotsAreSortedBuckets(arr, chains, s, divisor);
    BucketsMergeSorted(SlotContents(arr), s, divisor);
  }

  /**
   * One worker: for each bucket index in [start, stop), converts the chain to an
   * array and stores the empty marker for an empty bucket, or the sorted array.
   * It writes no slot outside its chunk and does not touch the table.
   */
  method SortBuckets(table: array<NodeList>, arr: array<array?<int>>, start: int, stop: int)
    requires 0 <= start && stop <= table.Length && stop <= arr.Length
    requires forall b :: start <= b < stop ==> table[b].Node?
    modifies arr
    ensures forall b :: start <= b < stop ==> SlotHolds(arr[b], table[b])
    ensures forall b :: start <= b < stop && arr[b] != null ==> fresh(arr[b])
    ensures forall b :: 0 <= b < arr.Length && !(start <= b < stop) ==> arr[b] == old(arr[b])
    ensures unchanged(table)
  {
    var i := start;
    while i < stop
      invariant start <= i && (i <= stop || i == start)
      invariant forall b :: start <= b < i ==> SlotHolds(arr[b], table[b])
      invariant forall b :: start <= b < i && arr[b] != null ==> fresh(arr[b])
      invariant forall b :: 0 <= b < arr.Length && !(start <= b < i) ==> arr[b] == old(arr[b])
    {
      var bucket := Conv(table[i]);
      if bucket.Length == 0 {
        arr[i] := null;
      } else {
        InsertSort(bucket);
        arr[i] := bucket;
      }
      i := i + 1;
    }
  }

  /**
   * The partitioning phase: finds the maximum, builds one bucket per
   * divisor-wide value range and inserts every value. Each chain then holds its
   * bucket's values, newest first, above the sentinel, and every value's index
   * names an existing bucket.
   */
  method Distribute(unsorted: array<int>, divisor: int) returns (table: array<NodeList>, max: int)
    requires divisor > 0
    requires forall k :: 0 <= k < unsorted.Length ==> unsorted[k] >= 0
    ensures 0 <= max && forall k :: 0 <= k < unsorted.Length ==> unsorted[k] <= max
    ensures max == 0 || exists k :: 0 <= k < unsorted.Length && unsorted[k] == max
    ensures fresh(table) && table.Length == BucketCount(max, divisor)
    ensures IndicesBelow(unsorted[..], divisor, table.Length)
    ensures ChainsHold(table[..], unsorted[..], divisor)
  {
    max := FindDivider(unsorted);
    var buckets := BucketCount(max, divisor);
    table := CreateTable(buckets);
    forall k | 0 <= k < unsorted.Length ensures 0 <= BucketIndex(unsorted[k], divisor) < buckets {
      IndexInRange(unsorted[k], max, divisor);
    }
    TableInsert(table, unsorted, divisor);
    forall b | 0 <= b < buckets
      ensures table[b].Node? && Payload(table[b]) == Reverse(BucketValues(unsorted[..], divisor, b))
    {
      SentinelChainPayload(BucketValues(unsorted[..], divisor, b));
    }
  }

  /**
   * The worker phase: worker i sorts the buckets of chunk i into fresh result
   * slots. Since the chunks follow one another from bucket 0 to the last bucket,
   * every slot ends up holding its bucket.
   */
  method RunWorkers(table: array<NodeList>, threads: int) returns (arr: array<array?<int>>)
    requires threads > 0
    requires forall b :: 0 <= b < table.Length ==> table[b].Node?
    ensures fresh(arr) && arr.Length == table.Length
    ensures forall b :: 0 <= b < arr.Length ==> SlotHolds(arr[b], table[b])
    ensures unchanged(table)
  {
    var buckets := table.Length;
    arr := new array?<int>[buckets];
    ChunkEnds(buckets, threads);
    var i := 0;
    while i < threads
      invariant 0 <= i <= threads
      invariant unchanged(table)
      invariant 0 <= ChunkStart(i, buckets, threads) <= buckets
      invariant forall b :: 0 <= b < ChunkStart(i, buckets, threads) ==> SlotHolds(arr[b], table[b])
    {
      ChunkBounds(i, buckets, threads);
      var start, stop := ChunkStart(i, buckets, threads), ChunkStop(i, buckets, threads);
      SortBuckets(table, arr, start, stop);
      i := i + 1;
    }
  }

  /**
   * The whole sort: partition the input into bucket chains, let the `threads`
   * workers sort the chains into the result slots, then merge the slots in
   * bucket-index order into an array as long as the input.
   */
  method BucketSort(unsorted: array<int>, threads: int, divisor: int) returns (final: array<int>)
    requires threads > 0 && divisor > 0
    requires forall k :: 0 <= k < unsorted.Length ==> unsorted[k] >= 0
    ensures final.Length == unsorted.Length
    ensures Sorted(final[..])
    ensures multiset(final[..]) == multiset(unsorted[..])
  {
    ghost var s := unsorted[..];
    var table, max := Distribute(unsorted, divisor);
    ghost var chains := table[..];
    var arr := RunWorkers(table, threads);
    ghost var ss := SlotContents(arr);
    SlotsMergeSorted(arr, chains, s, divisor);
    final := new int[unsorted.Length];
    Join(arr, final);
    assert final[..] == final[..|s|] == Concat(ss);
  }

  /**
   * The result depends only on the input: any worker count and any divisor give
   * the same array, since a sorted arrangement of the input is unique.
   */
  method WorkerCountIrrelevant(unsorted: array<int>, threads1: int, divisor1: int, threads2: int, divisor2: int)
    returns (first: array<int>, second: array<int>)
    requires threads1 > 0 && divisor1 > 0 && threads2 > 0 && divisor2 > 0
    requires forall k :: 0 <= k < unsorted.Length ==> unsorted[k] >= 0
    ensures first[..] == second[..]
  {
    first := BucketSort(unsorted, threads1, divisor1);
    second := BucketSort(unsorted, threads2, divisor2);
    SortedPermutationUnique(first[..], second[..]);
  }

  /**
   * The command-line driver's input for length 1 is [1]. With divisor 1 that
   * needs two buckets and bucket 0 receives nothing, so the worker leaves the
   * empty marker in slot 0: the merge as written would dereference it.
   */
  method EmptyBucketReachesJoin() returns (slots: array<array?<int>>)
    ensures slots.Length == 2 && slots[0] == null
  {
    var unsorted := new int[1];
    unsorted[0] := 1;
    var max := FindDivider(unsorted);
    var buckets := BucketCount(max, 1);
    var table := CreateTable(buckets);
    TableInsert(table, unsorted, 1);
    assert unsorted[..] == [1];
    assert BucketValues([1], 1, 0) == [];
    slots := new array?<int>[buckets];
    SortBuckets(table, slots, 0, buckets);
  }
}
