/**
 * quick_sort of Assignment_1/src/libsort.c: an in-place sort of
 * numbers[first..last] (both ends included) around the first entry of the
 * range as pivot.  The cooperative YIELD between the partition and the
 * recursive calls does not change the array and is not modelled.
 */
module InPlaceSort {
  import opened SortSpec

  /** s and t agree everywhere outside the index range [lo, hi]. */
  ghost predicate SameOutside(s: seq<int>, t: seq<int>, lo: int, hi: int) {
    |s| == |t| && forall k | 0 <= k < |s| && !(lo <= k <= hi) :: s[k] == t[k]
  }

  /** A permutation that leaves everything outside [lo, hi] alone permutes [lo, hi]. */
  lemma RangePermutation(s: seq<int>, t: seq<int>, lo: nat, hi: nat)
    requires hi < |s| && lo <= hi + 1
    requires SameOutside(s, t, lo, hi) && multiset(s) == multiset(t)
    ensures multiset(s[lo..hi + 1]) == multiset(t[lo..hi + 1])
  {
    SplitAround(s, lo, hi);
    SplitAround(t, lo, hi);
    assert s[..lo] == t[..lo];
    assert s[hi + 1..] == t[hi + 1..];
    CancelSides(s[..lo], s[lo..hi + 1], t[lo..hi + 1], s[hi + 1..]);
  }

  /** s is its part before lo, its range [lo, hi] and its part after hi. */
  lemma SplitAround(s: seq<int>, lo: nat, hi: nat)
    requires hi < |s| && lo <= hi + 1
    ensures s == s[..lo] + s[lo..hi + 1] + s[hi + 1..]
  {
  }

  /** Equal surroundings cancel out of a permutation. */
  lemma CancelSides(a: seq<int>, m: seq<int>, n: seq<int>, b: seq<int>)
    requires multiset(a + m + b) == multiset(a + n + b)
    ensures multiset(m) == multiset(n)
  {
    assert multiset(a + m + b) == multiset(a) + multiset(m) + multiset(b);
    assert multiset(a + n + b) == multiset(a) + multiset(n) + multiset(b);
    forall x ensures multiset(m)[x] == multiset(n)[x] {
      assert multiset(a + m + b)[x] == multiset(a + n + b)[x];
    }
  }

  /** Every value of m is at most hi. */
  predicate AllAtMost(m: multiset<int>, hi: int) {
    forall x | x in m :: x <= hi
  }

  /** Every value of m is above lo. */
  predicate AllAbove(m: multiset<int>, lo: int) {
    forall x | x in m :: x > lo
  }

  /** Index-wise bounds on s[lo..hi] are bounds on its multiset. */
  lemma BoundsOfSlice(s: seq<int>, lo: nat, hi: nat, p: int)
    requires lo <= hi <= |s|
    ensures (forall k | lo <= k < hi :: s[k] <= p) ==> AllAtMost(multiset(s[lo..hi]), p)
    ensures (forall k | lo <= k < hi :: s[k] > p) ==> AllAbove(multiset(s[lo..hi]), p)
  {
    forall x | x in multiset(s[lo..hi]) ensures exists k :: lo <= k < hi && s[k] == x {
      var i :| 0 <= i < hi - lo && s[lo..hi][i] == x;
      assert s[lo + i] == x;
    }
  }

  /** Two sorted pieces around a pivot that separates them make a sorted range. */
  lemma JoinAroundPivot(s: seq<int>, lo: nat, j: nat, hi: nat)
    requires lo <= j <= hi < |s|
    requires Sorted(s[lo..j]) && AllAtMost(multiset(s[lo..j]), s[j])
    requires Sorted(s[j + 1..hi + 1]) && AllAbove(multiset(s[j + 1..hi + 1]), s[j])
    ensures Sorted(s[lo..hi + 1])
  {
    forall x | lo <= x < j ensures s[x] <= s[j] {
      assert s[lo..j][x - lo] in multiset(s[lo..j]);
    }
    forall y | j < y <= hi ensures s[y] > s[j] {
      assert s[j + 1..hi + 1][y - j - 1] in multiset(s[j + 1..hi + 1]);
    }
    forall x, y | lo <= x < y <= hi ensures s[x] <= s[y] {
      if y < j {
        assert s[lo..j][x - lo] <= s[lo..j][y - lo];
      } else if x > j {
        assert s[j + 1..hi + 1][x - j - 1] <= s[j + 1..hi + 1][y - j - 1];
      }
    }
  }

  /** The three-statement exchange through temp that quick_sort writes out inline. */
  method Swap(numbers: array<int>, x: nat, y: nat)
    requires x < numbers.Length && y < numbers.Length
    modifies numbers
    ensures numbers[x] == old(numbers[y]) && numbers[y] == old(numbers[x])
    ensures forall k | 0 <= k < numbers.Length && k != x && k != y :: numbers[k] == old(numbers[k])
    ensures multiset(numbers[..]) == old(multiset(numbers[..]))
  {
    var temp := numbers[x];
    numbers[x] := numbers[y];
    numbers[y] := temp;
  }

  /**
   * The partition step of quick_sort (the scan loop and the final pivot
   * swap): afterwards the pivot value sits at j, everything left of j in
   * the range is at most the pivot and everything right of j is larger.
   */
  method Partition(numbers: array<int>, first: nat, last: nat) returns (j: nat)
    requires first < last < numbers.Length
    modifies numbers
    ensures first <= j <= last
    ensures numbers[j] == old(numbers[first])
    ensures forall k | first <= k < j :: numbers[k] <= numbers[j]
    ensures forall k | j < k <= last :: numbers[k] > numbers[j]
    ensures SameOutside(numbers[..], old(numbers[..]), first, last)
    ensures multiset(numbers[..]) == old(multiset(numbers[..]))
  {
    var pivot := first;
    var i := first;
    j := last;
    ghost var p := numbers[pivot];
    while i < j
      invariant first <= i <= last && first <= j <= last
      invariant numbers[pivot] == p
      invariant forall k | first <= k < i :: numbers[k] <= p
      invariant forall k | j < k <= last :: numbers[k] > p
      invariant i < j ==> numbers[i] <= p
      invariant i >= j ==> numbers[j] <= p && (i == j ==> i == last)
      invariant SameOutside(numbers[..], old(numbers[..]), first, last)
      invariant multiset(numbers[..]) == old(multiset(numbers[..]))
      decreases last - i
    {
      while numbers[i] <= numbers[pivot] && i < last
        invariant first <= i <= last
        invariant numbers[pivot] == p
        invariant forall k | first <= k < i :: numbers[k] <= p
        decreases last - i
      {
        i := i + 1;
      }
      while numbers[j] > numbers[pivot]
        invariant first <= j <= last
        invariant numbers[pivot] == p
        invariant forall k | j < k <= last :: numbers[k] > p
        decreases j
      {
        j := j - 1;
      }
      assert first < i;
      if i < j {
        Swap(numbers, i, j);
      }
    }
    Swap(numbers, pivot, j);
  }

  /**
   * quick_sort(numbers, first, last): sorts numbers[first..last] in place.
   * A range with first >= last is left as it is; entries outside the range
   * never change, and the range ends up a sorted permutation of itself.
   */
  method QuickSort(numbers: array<int>, first: nat, last: nat)
    requires last < numbers.Length
    modifies numbers
    ensures first <= last ==> Sorted(numbers[first..last + 1])
    ensures first <= last ==> multiset(numbers[first..last + 1]) == old(multiset(numbers[first..last + 1]))
    ensures SameOutside(numbers[..], old(numbers[..]), first, last)
    ensures multiset(numbers[..]) == old(multiset(numbers[..]))
    decreases if first <= last then last - first + 1 else 0
  {
    if first >= last {
      return;
    }
    ghost var before := numbers[..];
    var j := Partition(numbers, first, last);
    ghost var parted := numbers[..];
    if j != 0 {
      QuickSort(numbers, first, j - 1);
    }
    ghost var leftDone := numbers[..];
    QuickSort(numbers, j + 1, last);
    SortedAfterRecursion(before, parted, leftDone, numbers[..], first, j, last);
  }

  /**
   * The proof obligation of one quick_sort call, on the four snapshots of
   * the array: before the partition, after it, after the left recursion
   * and after the right recursion.
   */
  lemma SortedAfterRecursion(before: seq<int>, parted: seq<int>, leftDone: seq<int>, after: seq<int>,
                             first: nat, j: nat, last: nat)
    requires first <= j <= last < |before|
    requires SameOutside(parted, before, first, last) && multiset(parted) == multiset(before)
    requires forall k | first <= k < j :: parted[k] <= parted[j]
    requires forall k | j < k <= last :: parted[k] > parted[j]
    requires SameOutside(leftDone, parted, first, j - 1) && multiset(leftDone) == multiset(parted)
    requires first < j ==> Sorted(leftDone[first..j])
    requires SameOutside(after, leftDone, j + 1, last) && multiset(after) == multiset(leftDone)
    requires j < last ==> Sorted(after[j + 1..last + 1])
    ensures Sorted(after[first..last + 1])
    ensures multiset(after[first..last + 1]) == multiset(before[first..last + 1])
    ensures SameOutside(after, before, first, last) && multiset(after) == multiset(before)
  {
    var p := parted[j];
    assert after[j] == p;
    if first < j {
      RangePermutation(leftDone, parted, first, j - 1);
      BoundsOfSlice(parted, first, j, p);
      assert leftDone[first..j] == after[first..j];
    }
    if j < last {
      RangePermutation(after, leftDone, j + 1, last);
      assert leftDone[j + 1..last + 1] == parted[j + 1..last + 1];
      BoundsOfSlice(parted, j + 1, last + 1, p);
    }
    JoinAroundPivot(after, first, j, last);
    RangePermutation(after, before, first, last);
  }
}
