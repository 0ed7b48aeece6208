/**
 * Partitioning: the maximum scan, the bucket count, the table of bucket chains,
 * inserting every value into its bucket, and turning a chain back into an array.
 */
module BucketTable {
  import opened Ordering
  import opened Division

  /**
   * A chain of nodes as the source links them: each node holds a value and the
   * rest of the chain, and Null ends it. A node is never changed once linked in,
   * so a chain is a value.
   */
  datatype NodeList = Null | Node(value: int, next: NodeList)

  /** The values along a chain, head first. */
  function Values(l: NodeList): (vs: seq<int>)
    ensures l.Node? <==> |vs| > 0
  {
    match l
    case Null => []
    case Node(v, next) => [v] + Values(next)
  }

  /** The values `Conv` copies out of a chain: all but the last node, which is the sentinel. */
  function Payload(l: NodeList): (payload: seq<int>) {
    var vs := Values(l);
    if vs == [] then [] else vs[..|vs| - 1]
  }

  /** The zero-filled node every bucket starts with: value 0 and no successor. */
  const Sentinel: NodeList := Node(0, Null)

  /** The chain after prepending xs[0], xs[1], ... onto l in that order. */
  function PushAll(l: NodeList, xs: seq<int>): (pushed: NodeList) {
    if xs == [] then l else Node(xs[|xs| - 1], PushAll(l, xs[..|xs| - 1]))
  }

  /** Prepending reads back in reverse insertion order, ahead of what was there. */
  lemma {:induction false} PushAllValues(l: NodeList, xs: seq<int>)
    ensures Values(PushAll(l, xs)) == Reverse(xs) + Values(l)
  {
    if xs != [] {
      PushAllValues(l, xs[..|xs| - 1]);
    }
  }

  /**
   * A bucket that started as a lone sentinel and then received xs yields exactly
   * xs, newest first, once the sentinel is dropped; a bucket that received nothing
   * yields nothing.
   */
  lemma SentinelChainPayload(xs: seq<int>)
    ensures |Values(PushAll(Sentinel, xs))| - 1 == |xs|
    ensures Payload(PushAll(Sentinel, xs)) == Reverse(xs)
  {
    PushAllValues(Sentinel, xs);
    assert Values(Sentinel) == [0];
  }

  /** Which bucket a value goes to. */
  function BucketIndex(v: int, divisor: int): (index: int)
    requires divisor > 0
  {
    v / divisor
  }

  /** How many buckets a table needs for values up to max; always at least one. */
  function BucketCount(max: int, divisor: int): (n: int)
    requires max >= 0 && divisor > 0
    ensures n >= 1
  {
    max / divisor + 1
  }

  /** A value in a lower-indexed bucket is smaller than any value in a higher-indexed one. */
  lemma IndexOrder(x: int, y: int, d: int)
    requires d > 0 && BucketIndex(x, d) < BucketIndex(y, d)
    ensures x < y
  {
    if y <= x {
      DivMonotone(y, x, d);
    }
  }

  /** Every value between 0 and the maximum lands in an existing bucket. */
  lemma IndexInRange(v: int, max: int, divisor: int)
    requires 0 <= v <= max && divisor > 0
    ensures 0 <= BucketIndex(v, divisor) < BucketCount(max, divisor)
  {
    DivMonotone(0, v, divisor);
    DivMonotone(v, max, divisor);
  }

  /** Slot storage sized max + 1 is never smaller than the bucket count. */
  lemma SlotCapacitySuffices(max: int, divisor: int)
    requires max >= 0 && divisor > 0
    ensures BucketCount(max, divisor) <= max + 1
  {
    var q := max / divisor;
    if q > max {
      MulAtLeast(q, divisor);
      assert false;
    }
  }

  /** The values of s that belong in bucket b, in input order. */
  function BucketValues(s: seq<int>, divisor: int, b: int): (r: seq<int>)
    requires divisor > 0
    ensures forall x :: x in r ==> x in s && BucketIndex(x, divisor) == b
  {
    if s == [] then []
    else
      var x := s[|s| - 1];
      BucketValues(s[..|s| - 1], divisor, b) + (if BucketIndex(x, divisor) == b then [x] else [])
  }

  /**
   * The largest value, or 0 if there is none larger: the scan starts from 0 and
   * keeps every value that is at least the current maximum.
   */
  method FindDivider(arr: array<int>) returns (max: int)
    ensures 0 <= max
    ensures forall k :: 0 <= k < arr.Length ==> arr[k] <= max
    ensures max == 0 || exists k :: 0 <= k < arr.Length && arr[k] == max
    ensures arr.Length > 0 && (forall k :: 0 <= k < arr.Length ==> arr[k] >= 0) ==>
              exists k :: 0 <= k < arr.Length && arr[k] == max
  {
    max := 0;
    for i := 0 to arr.Length
      invariant 0 <= max
      invariant forall k :: 0 <= k < i ==> arr[k] <= max
      invariant max == 0 || exists k :: 0 <= k < i && arr[k] == max
    {
      if arr[i] >= max {
        max := arr[i];
      }
    }
    if arr.Length > 0 && max == 0 && (forall k :: 0 <= k < arr.Length ==> arr[k] >= 0) {
      assert arr[0] == max;
    }
  }

  /** A table of `amount` buckets, each holding only its sentinel node. */
  method CreateTable(amount: nat) returns (table: array<NodeList>)
    ensures fresh(table) && table.Length == amount
    ensures forall b :: 0 <= b < amount ==> table[b] == Sentinel
  {
    table := new NodeList[amount];
    for i := 0 to amount
      invariant forall b :: 0 <= b < i ==> table[b] == Sentinel
    {
      var list := Sentinel;
      table[i] := list;
    }
  }

  /** Prepends value to bucket `index`; every other bucket keeps its chain. */
  method Insert(table: array<NodeList>, index: int, value: int)
    requires 0 <= index < table.Length
    modifies table
    ensures table[index] == Node(value, old(table[index]))
    ensures forall b :: 0 <= b < table.Length && b != index ==> table[b] == old(table[b])
  {
    var list := table[index];
    var newNode := Node(value, list);
    table[index] := newNode;
  }

  /** Inserts every value of arr, in order, into the bucket its index names. */
  method TableInsert(table: array<NodeList>, arr: array<int>, divisor: int)
    requires divisor > 0
    requires forall k :: 0 <= k < arr.Length ==> 0 <= arr[k] && BucketIndex(arr[k], divisor) < table.Length
    modifies table
    ensures forall b :: 0 <= b < table.Length ==>
              table[b] == PushAll(old(table[b]), BucketValues(arr[..], divisor, b))
  {
    for i := 0 to arr.Length
      invariant forall b :: 0 <= b < table.Length ==>
                  table[b] == PushAll(old(table[b]), BucketValues(arr[..i], divisor, b))
    {
      ghost var before := table[..];
      Insert(table, BucketIndex(arr[i], divisor), arr[i]);
      assert arr[..i + 1][..i] == arr[..i];
      forall b | 0 <= b < table.Length
        ensures table[b] == PushAll(old(table[b]), BucketValues(arr[..i + 1], divisor, b))
      {
        var xs := BucketValues(arr[..i], divisor, b);
        var s := arr[..i + 1];
        assert s[..|s| - 1] == arr[..i] && s[|s| - 1] == arr[i];
        assert BucketValues(s, divisor, b) == xs + (if BucketIndex(arr[i], divisor) == b then [arr[i]] else []);
        assert before[b] == PushAll(old(table[b]), xs);
        if BucketIndex(arr[i], divisor) == b {
          assert (xs + [arr[i]])[..|xs|] == xs;
          assert table[b] == Node(arr[i], before[b]);
          assert PushAll(old(table[b]), xs + [arr[i]]) == Node(arr[i], PushAll(old(table[b]), xs));
          assert BucketValues(arr[..i + 1], divisor, b) == xs + [arr[i]];
        } else {
          assert table[b] == before[b];
          assert BucketValues(arr[..i + 1], divisor, b) == xs;
        }
      }
    }
    assert arr[..arr.Length] == arr[..];
  }

  /**
   * Copies a chain into a fresh array: one walk counts the nodes starting from -1,
   * so the sentinel at the end is not counted, and a second walk copies that
   * many values from the head.
   */
  method Conv(list: NodeList) returns (bucket: array<int>)
    requires list.Node?
    ensures fresh(bucket)
    ensures bucket.Length == |Values(list)| - 1
    ensures bucket[..] == Payload(list)
  {
    var len := -1;
    var current := list;
    while current.Node?
      invariant len + |Values(current)| == |Values(list)| - 1
      decreases current
    {
      current := current.next;
      len := len + 1;
    }
    bucket := new int[len];
    var l := list;
    for i := 0 to len
      invariant Values(l) == Values(list)[i..]
      invariant bucket[..i] == Values(list)[..i]
    {
      bucket[i] := l.value;
      l := l.next;
    }
    assert bucket[..] == bucket[..len];
  }
}
