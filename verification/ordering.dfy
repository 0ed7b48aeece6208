/** Order and reversal on integer sequences: the specification vocabulary shared by the sorting steps. */
module Ordering {

  /** Non-decreasing order; equal neighbours are allowed. */
  ghost predicate Sorted(s: seq<int>) {
    forall i, j :: 0 <= i < j < |s| ==> s[i] <= s[j]
  }

  /** Sorted everywhere except possibly where index `hole` is the larger index of a pair. */
  ghost predicate SortedExcept(s: seq<int>, hole: int) {
    forall i, j :: 0 <= i < j < |s| && j != hole ==> s[i] <= s[j]
  }

  /** The sequence read back to front. */
  function Reverse(s: seq<int>): (r: seq<int>)
    ensures |r| == |s|
  {
    if s == [] then [] else [s[|s| - 1]] + Reverse(s[..|s| - 1])
  }

  /** Reversal keeps every element with its multiplicity. */
  lemma {:induction false} ReverseMultiset(s: seq<int>)
    ensures multiset(Reverse(s)) == multiset(s)
  {
    if s != [] {
      ReverseMultiset(s[..|s| - 1]);
      assert s == s[..|s| - 1] + [s[|s| - 1]];
    }
  }

  /** The head of a sorted sequence is at most every element it holds. */
  lemma SortedHeadLeast(s: seq<int>, x: int)
    requires Sorted(s) && x in multiset(s)
    ensures s[0] <= x
  {
    assert x in s;
  }

  /** Two sorted arrangements of the same multiset are the same sequence. */
  lemma {:induction false} SortedPermutationUnique(a: seq<int>, b: seq<int>)
    requires Sorted(a) && Sorted(b)
    requires multiset(a) == multiset(b)
    ensures a == b
  {
    if a == [] {
      assert |multiset(b)| == 0;
    } else {
      assert a[0] in multiset(a);
      assert b[0] in multiset(b) by { assert |multiset(b)| == |a|; }
      SortedHeadLeast(a, b[0]);
      SortedHeadLeast(b, a[0]);
      assert a == [a[0]] + a[1..];
      assert b == [b[0]] + b[1..];
      assert multiset(a[1..]) == multiset(b[1..]) by {
        assert a[0] == b[0];
        assert multiset(a) == multiset{a[0]} + multiset(a[1..]);
        assert multiset(b) == multiset{b[0]} + multiset(b[1..]);
        assert multiset(a[1..]) == multiset(a) - multiset{a[0]};
        assert multiset(b[1..]) == multiset(b) - multiset{b[0]};
      }
      SortedPermutationUnique(a[1..], b[1..]);
    }
  }

  /** Joining two sorted runs gives a sorted run when nothing in the first exceeds anything in the second. */
  lemma SortedAppend(a: seq<int>, b: seq<int>)
    requires Sorted(a) && Sorted(b)
    requires forall i, j :: 0 <= i < |a| && 0 <= j < |b| ==> a[i] <= b[j]
    ensures Sorted(a + b)
  {
    var c := a + b;
    forall i, j | 0 <= i < j < |c| ensures c[i] <= c[j] {
      if j < |a| {
        assert c[i] == a[i] && c[j] == a[j];
      } else if i < |a| {
        assert c[i] == a[i] && c[j] == b[j - |a|];
      } else {
        assert c[i] == b[i - |a|] && c[j] == b[j - |a|];
      }
    }
  }
}
