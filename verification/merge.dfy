/**
 * The merge: the result slots are copied end to end, in bucket-index order, into
 * the final array; and why that yields a sorted arrangement of the input.
 */
module Merge {
  import opened Ordering
  import opened BucketTable

  /** Sum of the lengths of the buckets. */
  function TotalLength(ss: seq<seq<int>>): (total: nat) {
    if ss == [] then 0 else TotalLength(ss[..|ss| - 1]) + |ss[|ss| - 1]|
  }

  /** The buckets laid end to end in index order; its length is the sum of theirs. */
  function Concat(ss: seq<seq<int>>): (r: seq<int>)
    ensures |r| == TotalLength(ss)
  {
    if ss == [] then [] else Concat(ss[..|ss| - 1]) + ss[|ss| - 1]
  }

  /** The running offset never exceeds the total. */
  lemma {:induction false} TotalLengthPrefix(ss: seq<seq<int>>, i: int)
    requires 0 <= i <= |ss|
    ensures TotalLength(ss[..i]) <= TotalLength(ss)
  {
    if i < |ss| {
      assert ss[..|ss| - 1][..i] == ss[..i];
      TotalLengthPrefix(ss[..|ss| - 1], i);
    } else {
      assert ss[..i] == ss;
    }
  }

  /** Adding one bucket advances the running offset by that bucket's length. */
  lemma TotalLengthStep(ss: seq<seq<int>>, i: int)
    requires 0 <= i < |ss|
    ensures TotalLength(ss[..i + 1]) == TotalLength(ss[..i]) + |ss[i]|
  {
    assert ss[..i + 1][..i] == ss[..i];
  }

  /** Bucket i's k-th value sits at the running offset of bucket i plus k. */
  lemma {:induction false} ConcatAt(ss: seq<seq<int>>, i: int, k: int)
    requires 0 <= i < |ss| && 0 <= k < |ss[i]|
    ensures TotalLength(ss[..i]) + k < TotalLength(ss)
    ensures Concat(ss)[TotalLength(ss[..i]) + k] == ss[i][k]
  {
    var init := ss[..|ss| - 1];
    if i == |ss| - 1 {
      assert ss[..i] == init;
    } else {
      assert init[..i] == ss[..i] && init[i] == ss[i];
      ConcatAt(init, i, k);
    }
  }

  /** What a result slot contributes: its array, or nothing for the empty marker. */
  ghost function Slot(a: array?<int>): (contents: seq<int>)
    reads a
  {
    if a == null then [] else a[..]
  }

  /** The contents of all result slots, in bucket-index order. */
  ghost function SlotContents(arr: array<array?<int>>): (ss: seq<seq<int>>)
    reads arr, set b | 0 <= b < arr.Length :: arr[b]
    ensures |ss| == arr.Length
  {
    seq(arr.Length, b requires 0 <= b < arr.Length reads arr, set j | 0 <= j < arr.Length :: arr[j] => Slot(arr[b]))
  }

  /**
   * Copies each slot's bucket to final[next .. next + len), advancing `next` by
   * the bucket's length; an empty slot contributes nothing.
   */
  method Join(arr: array<array?<int>>, final: array<int>)
    requires forall b :: 0 <= b < arr.Length ==> arr[b] != final
    requires TotalLength(SlotContents(arr)) <= final.Length
    modifies final
    ensures SlotContents(arr) == old(SlotContents(arr))
    ensures final[..TotalLength(SlotContents(arr))] == Concat(SlotContents(arr))
    ensures forall p :: TotalLength(SlotContents(arr)) <= p < final.Length ==> final[p] == old(final[p])
  {
    ghost var ss := SlotContents(arr);
    ghost var total := TotalLength(ss);
    ghost var merged := Concat(ss);
    var next := 0;
    for i := 0 to arr.Length
      invariant next == TotalLength(ss[..i]) <= total
      invariant forall p :: 0 <= p < next ==> final[p] == merged[p]
      invariant forall p :: total <= p < final.Length ==> final[p] == old(final[p])
    {
      TotalLengthStep(ss, i);
      TotalLengthPrefix(ss, i + 1);
      var bucket := arr[i];
      if bucket != null {
        assert ss[i] == Slot(arr[i]) == bucket[..];
        var j, k := next, 0;
        while j < next + bucket.Length
          invariant next <= j <= next + bucket.Length && k == j - next
          invariant forall p :: 0 <= p < j ==> final[p] == merged[p]
          invariant forall p :: total <= p < final.Length ==> final[p] == old(final[p])
        {
          ConcatAt(ss, i, k);
          final[j] := bucket[k];
          j, k := j + 1, k + 1;
        }
        next := next + bucket.Length;
      } else {
        assert ss[i] == Slot(arr[i]) == [];
      }
    }
    assert ss[..arr.Length] == ss;
  }

  /**
   * The merge as the source writes it: every slot is dereferenced, so it is only
   * defined when no slot holds the empty marker.
   */
  method JoinAsWritten(arr: array<array?<int>>, final: array<int>)
    requires forall b :: 0 <= b < arr.Length ==> arr[b] != null && arr[b] != final
    requires TotalLength(SlotContents(arr)) <= final.Length
    modifies final
    ensures SlotContents(arr) == old(SlotContents(arr))
    ensures final[..TotalLength(SlotContents(arr))] == Concat(SlotContents(arr))
    ensures forall p :: TotalLength(SlotContents(arr)) <= p < final.Length ==> final[p] == old(final[p])
  {
    ghost var ss := SlotContents(arr);
    ghost var total := TotalLength(ss);
    ghost var merged := Concat(ss);
    var next := 0;
    for i := 0 to arr.Length
      invariant next == TotalLength(ss[..i]) <= total
      invariant forall p :: 0 <= p < next ==> final[p] == merged[p]
      invariant forall p :: total <= p < final.Length ==> final[p] == old(final[p])
    {
      TotalLengthStep(ss, i);
      TotalLengthPrefix(ss, i + 1);
      var items := arr[i];
      assert ss[i] == Slot(arr[i]) == items[..];
      var j, k := next, 0;
      while j < next + arr[i].Length
        invariant next <= j <= next + items.Length && k == j - next
        invariant forall p :: 0 <= p < j ==> final[p] == merged[p]
        invariant forall p :: total <= p < final.Length ==> final[p] == old(final[p])
      {
        ConcatAt(ss, i, k);
        final[j] := items[k];
        j, k := j + 1, k + 1;
      }
      next := next + arr[i].Length;
    }
    assert ss[..arr.Length] == ss;
  }

  /** Slot by slot, ss holds a sorted arrangement of bucket b's share of s. */
  ghost predicate SortedBuckets(ss: seq<seq<int>>, s: seq<int>, divisor: int)
    requires divisor > 0
  {
    forall b :: 0 <= b < |ss| ==> Sorted(ss[b]) && multiset(ss[b]) == multiset(BucketValues(s, divisor, b))
  }

  /** All values of s that go to buckets 0 .. n - 1. */
  ghost function BucketSum(s: seq<int>, divisor: int, n: nat): multiset<int>
    requires divisor > 0
  {
    if n == 0 then multiset{} else BucketSum(s, divisor, n - 1) + multiset(BucketValues(s, divisor, n - 1))
  }

  /** One more input value adds itself to exactly the bucket its index names. */
  lemma {:induction false} BucketSumSnoc(s: seq<int>, x: int, divisor: int, n: nat)
    requires divisor > 0
    ensures BucketSum(s + [x], divisor, n) ==
            BucketSum(s, divisor, n) + (if 0 <= BucketIndex(x, divisor) < n then multiset{x} else multiset{})
  {
    if n > 0 {
      BucketSumSnoc(s, x, divisor, n - 1);
      var t := s + [x];
      assert t[..|t| - 1] == s && t[|t| - 1] == x;
    }
  }

  /** When every index is below n, buckets 0 .. n - 1 together hold the whole input. */
  lemma {:induction false} BucketSumCovers(s: seq<int>, divisor: int, n: nat)
    requires divisor > 0
    requires forall k :: 0 <= k < |s| ==> 0 <= BucketIndex(s[k], divisor) < n
    ensures BucketSum(s, divisor, n) == multiset(s)
  {
    if s == [] {
      BucketSumEmpty(divisor, n);
    } else {
      var init, x := s[..|s| - 1], s[|s| - 1];
      assert s == init + [x];
      BucketSumCovers(init, divisor, n);
      BucketSumSnoc(init, x, divisor, n);
    }
  }

  /** No input, no values in any bucket. */
  lemma {:induction false} BucketSumEmpty(divisor: int, n: nat)
    requires divisor > 0
    ensures BucketSum([], divisor, n) == multiset{}
  {
    if n > 0 {
      BucketSumEmpty(divisor, n - 1);
    }
  }

  /** The merge of the first n buckets extends the merge of the first n - 1 by bucket n - 1. */
  lemma ConcatPrefixStep(ss: seq<seq<int>>, n: int)
    requires 0 < n <= |ss|
    ensures Concat(ss[..n]) == Concat(ss[..n - 1]) + ss[n - 1]
  {
    assert ss[..n][..n - 1] == ss[..n - 1];
  }

  /** The merge of the first n buckets holds exactly the input values bound for them. */
  lemma {:induction false} ConcatPrefixMultiset(ss: seq<seq<int>>, s: seq<int>, divisor: int, n: nat)
    requires divisor > 0 && n <= |ss|
    requires SortedBuckets(ss, s, divisor)
    ensures multiset(Concat(ss[..n])) == BucketSum(s, divisor, n)
  {
    if n == 0 {
      assert ss[..0] == [];
    } else {
      ConcatPrefixMultiset(ss, s, divisor, n - 1);
      ConcatPrefixStep(ss, n);
    }
  }

  /** The merge of the first n buckets is sorted and holds only values bound for them. */
  lemma {:induction false} ConcatPrefixSorted(ss: seq<seq<int>>, s: seq<int>, divisor: int, n: nat)
    requires divisor > 0 && n <= |ss|
    requires SortedBuckets(ss, s, divisor)
    ensures Sorted(Concat(ss[..n]))
    ensures forall x :: x in Concat(ss[..n]) ==> BucketIndex(x, divisor) < n
  {
    if n == 0 {
      assert ss[..0] == [];
    } else {
      ConcatPrefixSorted(ss, s, divisor, n - 1);
      ConcatPrefixStep(ss, n);
      var head, last := Concat(ss[..n - 1]), ss[n - 1];
      assert forall y :: y in last ==> y in multiset(BucketValues(s, divisor, n - 1));
      forall i, j | 0 <= i < |head| && 0 <= j < |last| ensures head[i] <= last[j] {
        assert head[i] in head && last[j] in last;
        IndexOrder(head[i], last[j], divisor);
      }
      SortedAppend(head, last);
    }
  }

  /**
   * Sorted buckets that together cover the input merge into a sorted permutation
   * of it, as long as the input.
   */
  lemma BucketsMergeSorted(ss: seq<seq<int>>, s: seq<int>, divisor: int)
    requires divisor > 0
    requires SortedBuckets(ss, s, divisor)
    requires forall k :: 0 <= k < |s| ==> 0 <= BucketIndex(s[k], divisor) < |ss|
    ensures Sorted(Concat(ss))
    ensures multiset(Concat(ss)) == multiset(s)
    ensures TotalLength(ss) == |s|
  {
    ConcatPrefixSorted(ss, s, divisor, |ss|);
    ConcatPrefixMultiset(ss, s, divisor, |ss|);
    BucketSumCovers(s, divisor, |ss|);
    assert ss[..|ss|] == ss;
    assert |multiset(Concat(ss))| == |multiset(s)|;
  }
}
