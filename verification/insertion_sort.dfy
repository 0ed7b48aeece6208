/** The per-bucket sort: an in-place, swap-based insertion sort over a bucket's array. */
module InsertionSort {
  import opened Ordering

  /** A sorted prefix followed by one new value: only the new value may be out of place. */
  lemma StartInsertion(p: seq<int>)
    requires |p| > 0 && Sorted(p[..|p| - 1])
    ensures SortedExcept(p, |p| - 1)
  {
    forall i, j | 0 <= i < j < |p| && j != |p| - 1 ensures p[i] <= p[j] {
      assert p[i] == p[..|p| - 1][i] && p[j] == p[..|p| - 1][j];
    }
  }

  /** Swapping the moving value with a larger left neighbour moves the hole one step left. */
  lemma SwapStep(p: seq<int>, j: int, current: int)
    requires 0 <= j && j + 1 < |p|
    requires p[j + 1] == current && current < p[j]
    requires SortedExcept(p, j + 1)
    ensures SortedExcept(p[j + 1 := p[j]][j := current], j)
  {
    var t := p[j + 1 := p[j]][j := current];
    forall x, y | 0 <= x < y < |t| && y != j ensures t[x] <= t[y] {
      if y == j + 1 {
        if x < j {
          assert p[x] <= p[j];
        }
      } else if x == j + 1 {
        assert p[j] <= p[y];
      } else if x == j {
        assert p[j + 1] <= p[y];
      }
    }
  }

  /** Exchanging two neighbours keeps the multiset. */
  lemma SwapMultiset(s: seq<int>, j: int)
    requires 0 <= j && j + 1 < |s|
    ensures multiset(s[j + 1 := s[j]][j := s[j + 1]]) == multiset(s)
  {
  }

  /** Stepping over an equal left neighbour also moves the hole one step left. */
  lemma EqualStep(p: seq<int>, j: int, current: int)
    requires 0 <= j && j + 1 < |p|
    requires p[j + 1] == current && current == p[j]
    requires SortedExcept(p, j + 1)
    ensures SortedExcept(p, j)
  {
    forall x, y | 0 <= x < y < |p| && y != j ensures p[x] <= p[y] {
      if y == j + 1 && x < j {
        assert p[x] <= p[j];
      }
    }
  }

  /** Meeting a smaller left neighbour closes the hole. */
  lemma StopAtSmaller(p: seq<int>, j: int, current: int)
    requires 0 <= j && j + 1 < |p|
    requires p[j + 1] == current && current > p[j]
    requires SortedExcept(p, j + 1)
    ensures Sorted(p)
  {
    forall x, y | 0 <= x < y < |p| ensures p[x] <= p[y] {
      if y == j + 1 && x < j {
        assert p[x] <= p[j];
      }
    }
  }

  /** Equal multisets with equal tails from index n on have equal multisets before n. */
  lemma PrefixMultiset(s: seq<int>, t: seq<int>, n: int)
    requires 0 <= n <= |s| == |t|
    requires multiset(s) == multiset(t) && s[n..] == t[n..]
    ensures multiset(s[..n]) == multiset(t[..n])
  {
    assert s == s[..n] + s[n..];
    assert t == t[..n] + t[n..];
    assert multiset(s) == multiset(s[..n]) + multiset(s[n..]);
    assert multiset(t) == multiset(t[..n]) + multiset(s[n..]);
    assert multiset(s[..n]) == multiset(s) - multiset(s[n..]);
    assert multiset(t[..n]) == multiset(t) - multiset(s[n..]);
  }

  /**
   * One pass of the outer loop: position i's value (`current`) walks left over the
   * sorted prefix a[..i]. It stops at the first smaller value, swaps past every
   * larger one and steps over equal ones without moving them. Stepping over equal
   * values keeps the result correct: in a sorted prefix nothing below an equal
   * value is larger.
   */
  method SinkLeft(a: array<int>, i: int)
    requires 0 <= i < a.Length && Sorted(a[..i])
    modifies a
    ensures Sorted(a[..i + 1])
    ensures multiset(a[..]) == multiset(old(a[..]))
    ensures a[i + 1..] == old(a[i + 1..])
    ensures multiset(a[..i + 1]) == multiset(old(a[..i + 1]))
  {
    var current := a[i];
    var j := i;
    // The moving value sits at index `hole`: i before the first step, j + 1 afterwards.
    // `p` mirrors the array's contents, so the reasoning is about a sequence.
    ghost var hole := i;
    ghost var p := a[..];
    assert SortedExcept(p[..i + 1], i) by {
      assert p[..i + 1][..i] == p[..i];
      StartInsertion(p[..i + 1]);
    }
    while j > -1
      invariant -1 <= j <= i
      invariant hole == if j == i then i else j + 1
      invariant a[..] == p && |p| == a.Length
      invariant p[hole] == current
      invariant SortedExcept(p[..i + 1], hole)
      invariant multiset(p) == multiset(old(a[..]))
      invariant p[i + 1..] == old(a[..])[i + 1..]
    {
      if current > a[j] {
        assert Sorted(p[..i + 1]) by {
          StopAtSmaller(p[..i + 1], j, current);
        }
        break;
      }
      if current < a[j] {
        var tmp := a[j];
        a[j + 1] := tmp;
        a[j] := current;
        assert SortedExcept(p[j + 1 := p[j]][j := current][..i + 1], j) by {
          SwapStep(p[..i + 1], j, current);
          assert p[j + 1 := p[j]][j := current][..i + 1] == p[..i + 1][j + 1 := p[j]][j := current];
        }
        SwapMultiset(p, j);
        p := p[j + 1 := p[j]][j := current];
      } else if j < i {
        assert SortedExcept(p[..i + 1], j) by {
          EqualStep(p[..i + 1], j, current);
        }
      }
      j := j - 1;
      hole := j + 1;
    }
    PrefixMultiset(p, old(a[..]), i + 1);
  }

  /**
   * Sorts the bucket's array in place, extending the sorted prefix by one value
   * per pass. An empty bucket is returned untouched.
   */
  method InsertSort(a: array<int>)
    modifies a
    ensures Sorted(a[..])
    ensures multiset(a[..]) == multiset(old(a[..]))
  {
    if a.Length == 0 {
      return;
    }
    for i := 0 to a.Length
      invariant Sorted(a[..i])
      invariant multiset(a[..]) == multiset(old(a[..]))
    {
      SinkLeft(a, i);
    }
    assert a[..a.Length] == a[..];
  }
}
