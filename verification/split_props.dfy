/**
 * What split and sort_file of Assignment_1/src/libsort.c produce, proved
 * about the functions LibSort specifies them by: every run they return is
 * sorted and holds only values of the input, and files of up to twice the
 * bound are sorted exactly.  Beyond that the split loses values (see
 * SplitLosesValue), and an empty file sorts to a single zero; SplitFixed
 * and SortFileFixed are the definitions with both mistakes put right,
 * proved to be the reference sort.
 */
module SplitProps {
  import opened Wrappers
  import opened RunFormat
  import opened SortSpec
  import opened LibSort

  /** What split returns is sorted. */
  lemma {:induction false} SplitRunSorted(input: seq<int>, start: nat, end: nat, bound: nat)
    requires SplitCallable(input, start, end, bound)
    ensures Sorted(SplitRun(input, start, end, bound))
    decreases end - start, 1
  {
    if end - start == 0 {
      ReadsIndex(input, 0, 1);
    } else {
      SplitLevelSorted(input, start, end, bound);
    }
  }

  /** One level of split merges two sorted halves into a sorted run. */
  lemma {:induction false} SplitLevelSorted(input: seq<int>, start: nat, end: nat, bound: nat)
    requires SplitCallable(input, start, end, bound) && end - start != 0
    ensures Sorted(SplitLevel(input, start, end, bound))
    decreases end - start, 0
  {
    var mid := SplitRange(start, end - 1);
    var leftLen := LeftInterval(start, mid, end - 1);
    var rightLen := RightInterval(start, mid, end - 1);
    var left, right := Reads(input, 0, leftLen), Reads(input, leftLen, rightLen);
    HalvesCallable(input, start, end, bound, mid, leftLen, rightLen, left, right);
    var leftOut := SortHalf(left, start, mid, leftLen, bound);
    var rightOut := SortHalf(right, mid + 1, end, rightLen, bound);
    SortHalfSorted(left, start, mid, leftLen, bound);
    SortHalfSorted(right, mid + 1, end, rightLen, bound);
    PaddedSorted(leftOut, leftLen);
    PaddedSorted(rightOut, rightLen);
    MergeSorted(Padded(leftOut, leftLen), Padded(rightOut, rightLen));
  }

  /** A half sorted inside split, recursively or in memory, comes back sorted. */
  lemma {:induction false} SortHalfSorted(half: seq<int>, start: nat, end: nat, len: nat, bound: nat)
    requires len >= 1
    requires len > bound ==> SplitCallable(half, start, end, bound)
    ensures Sorted(SortHalf(half, start, end, len, bound))
    decreases end - start, 2
  {
    if len > bound {
      SplitRunSorted(half, start, end, bound);
    } else {
      SortSeqSorts(Loaded(half, len));
    }
  }

  /** Every value of s is a value of t. */
  predicate DrawnFrom(s: seq<int>, t: seq<int>) {
    forall x | x in s :: x in t
  }

  /** Drawing from a run drawn from another draws from that one. */
  lemma DrawnFromTransitive(s: seq<int>, t: seq<int>, u: seq<int>)
    requires DrawnFrom(s, t) && DrawnFrom(t, u)
    ensures DrawnFrom(s, u)
  {
  }

  /** Every value of a run read from another was in it. */
  lemma ReadsDrawsFrom(run: seq<int>, pos: nat, len: nat)
    requires len == 0 || |run| >= 1
    ensures DrawnFrom(Reads(run, pos, len), run)
  {
    ReadsIndex(run, pos, len);
    forall x | x in Reads(run, pos, len) ensures x in run {
      var k :| 0 <= k < len && Reads(run, pos, len)[k] == x;
      assert StreamValue(run, pos + k) == x;
    }
  }

  /** A merge of two runs read from sorted halves draws from what the halves draw from. */
  lemma MergeResultDrawsFrom(leftOut: seq<int>, rightOut: seq<int>, leftLen: nat, rightLen: nat, input: seq<int>)
    requires |leftOut| >= 1 && |rightOut| >= 1
    requires DrawnFrom(leftOut, input) && DrawnFrom(rightOut, input)
    ensures DrawnFrom(MergeResult(Some(leftOut), Some(rightOut), leftLen, rightLen), input)
  {
    var a, b := Padded(leftOut, leftLen), Padded(rightOut, rightLen);
    PaddedDrawsFrom(leftOut, leftLen);
    PaddedDrawsFrom(rightOut, rightLen);
    MergePermutes(a, b);
    forall x | x in Merge(a, b) ensures x in input {
      assert x in multiset(Merge(a, b));
    }
  }

  /** Every value split returns was in its input: it invents none. */
  lemma {:induction false} SplitRunDrawsFrom(input: seq<int>, start: nat, end: nat, bound: nat)
    requires SplitCallable(input, start, end, bound)
    ensures DrawnFrom(SplitRun(input, start, end, bound), input)
    decreases end - start, 1
  {
    if end - start == 0 {
      ReadsDrawsFrom(input, 0, 1);
    } else {
      SplitLevelDrawsFrom(input, start, end, bound);
    }
  }

  /** The values of one level of split come from the two halves read from its input. */
  lemma {:induction false} SplitLevelDrawsFrom(input: seq<int>, start: nat, end: nat, bound: nat)
    requires SplitCallable(input, start, end, bound) && end - start != 0
    ensures DrawnFrom(SplitLevel(input, start, end, bound), input)
    decreases end - start, 0
  {
    var mid := SplitRange(start, end - 1);
    var leftLen := LeftInterval(start, mid, end - 1);
    var rightLen := RightInterval(start, mid, end - 1);
    var left, right := Reads(input, 0, leftLen), Reads(input, leftLen, rightLen);
    HalvesCallable(input, start, end, bound, mid, leftLen, rightLen, left, right);
    var leftOut := SortHalf(left, start, mid, leftLen, bound);
    var rightOut := SortHalf(right, mid + 1, end, rightLen, bound);
    ReadsDrawsFrom(input, 0, leftLen);
    ReadsDrawsFrom(input, leftLen, rightLen);
    SortHalfDrawsFrom(left, start, mid, leftLen, bound);
    SortHalfDrawsFrom(right, mid + 1, end, rightLen, bound);
    DrawnFromTransitive(leftOut, left, input);
    DrawnFromTransitive(rightOut, right, input);
    MergeResultDrawsFrom(leftOut, rightOut, leftLen, rightLen, input);
  }

  /** A half sorted inside split holds only values of the half. */
  lemma {:induction false} SortHalfDrawsFrom(half: seq<int>, start: nat, end: nat, len: nat, bound: nat)
    requires len >= 1 && len <= |half|
    requires len > bound ==> SplitCallable(half, start, end, bound)
    ensures DrawnFrom(SortHalf(half, start, end, len, bound), half)
    decreases end - start, 2
  {
    if len > bound {
      SplitRunDrawsFrom(half, start, end, bound);
    } else {
      var loaded := Loaded(half, len);
      SortSeqSorts(loaded);
      LoadedPrefix(half, len);
      forall x | x in SortSeq(loaded) ensures x in half {
        assert x in multiset(SortSeq(loaded));
        assert x in half[..len];
      }
    }
  }

  /** What sort_file returns for a readable file is sorted. */
  lemma SortFileSorted(values: seq<int>, bound: nat)
    requires bound >= 2
    ensures Sorted(SortFileRun(values, bound))
  {
    CountSerialized(values);
    var n := NumbersInText(Serialize(values));
    if n > bound {
      SplitRunSorted(values, 0, n, bound);
    } else {
      SortSeqSorts(Loaded(values, n));
    }
  }

  /**
   * A non-empty file of at most twice bound values is sorted exactly: its
   * halves fit in memory, so split never recurses into the short left call.
   */
  lemma SortFileWithinTwoBounds(values: seq<int>, bound: nat)
    requires bound >= 2 && 1 <= |values| <= 2 * bound
    ensures SortFileRun(values, bound) == SortSeq(values)
  {
    CountSerialized(values);
    if |values| > bound {
      SplitWithinTwoBounds(values, bound);
    } else {
      PreparedWhole(values);
    }
  }

  /** With the source's MAX_NUMBERS_LOADED, files of up to twice that many values sort exactly. */
  lemma SortFileAtMaxNumbersLoaded(values: seq<int>)
    requires 1 <= |values| <= 2 * MaxNumbersLoaded
    ensures SortFileRun(values, MaxNumbersLoaded) == SortSeq(values)
  {
    SortFileWithinTwoBounds(values, MaxNumbersLoaded);
  }

  /** Loading exactly the values of a run and sorting them is the reference sort. */
  lemma PreparedWhole(values: seq<int>)
    ensures PreparedSort(values, |values|) == SortSeq(values)
  {
    LoadedPrefix(values, |values|);
    assert values[..|values|] == values;
  }

  /** A split of a whole run of more than bound but at most twice bound values sorts it. */
  lemma SplitWithinTwoBounds(values: seq<int>, bound: nat)
    requires bound >= 2 && bound < |values| <= 2 * bound
    ensures SplitRun(values, 0, |values|, bound) == SortSeq(values)
  {
    var n := |values|;
    var mid := SplitRange(0, n - 1);
    var leftLen := LeftInterval(0, mid, n - 1);
    var rightLen := RightInterval(0, mid, n - 1);
    var left, right := Reads(values, 0, leftLen), Reads(values, leftLen, rightLen);
    HalvesCallable(values, 0, n, bound, mid, leftLen, rightLen, left, right);
    assert SplitRun(values, 0, n, bound) ==
           MergeResult(Some(SortHalf(left, 0, mid, leftLen, bound)), Some(SortHalf(right, mid + 1, n, rightLen, bound)), leftLen, rightLen);
    SortedHalves(values, leftLen, rightLen);
  }

  /**
   * Two halves of values sorted in memory and merged give the reference
   * sort of values.
   */
  lemma SortedHalves(values: seq<int>, leftLen: nat, rightLen: nat)
    requires 1 <= leftLen && 1 <= rightLen && leftLen + rightLen == |values|
    ensures MergeResult(Some(PreparedSort(Reads(values, 0, leftLen), leftLen)),
                        Some(PreparedSort(Reads(values, leftLen, rightLen), rightLen)),
                        leftLen, rightLen) == SortSeq(values)
  {
    PreparedWhole(Reads(values, 0, leftLen));
    PreparedWhole(Reads(values, leftLen, rightLen));
    SortedHalvesMerge(values, leftLen, rightLen);
  }

  /** The reference sorts of the two halves of values merge into the reference sort of values. */
  lemma SortedHalvesMerge(values: seq<int>, leftLen: nat, rightLen: nat)
    requires 1 <= leftLen && 1 <= rightLen && leftLen + rightLen == |values|
    ensures MergeResult(Some(SortSeq(Reads(values, 0, leftLen))),
                        Some(SortSeq(Reads(values, leftLen, rightLen))),
                        leftLen, rightLen) == SortSeq(values)
  {
    var left, right := Reads(values, 0, leftLen), Reads(values, leftLen, rightLen);
    ReadsWithin(values, 0, leftLen);
    ReadsWithin(values, leftLen, rightLen);
    SortedRunsMerge(left, right);
    assert left + right == values;
  }

  /**
   * Sorting two runs in memory and merging them gives the reference sort
   * of both together.
   */
  lemma SortedRunsMerge(left: seq<int>, right: seq<int>)
    requires |left| >= 1 && |right| >= 1
    ensures MergeResult(Some(SortSeq(left)), Some(SortSeq(right)), |left|, |right|) == SortSeq(left + right)
  {
    var a, b := SortSeq(left), SortSeq(right);
    SortSeqSorts(left);
    SortSeqSorts(right);
    MergeResultOfSortedRuns(Some(a), Some(b));
    SortSeqSorts(a + b);
    SortedPermutationIsSortSeq(left + right, SortSeq(a + b));
  }

  /**
   * An empty file: count_numbers_in_file counts the EOF as a number, and
   * quick_sort_prepare sorts the one zero its calloc'd array holds.
   */
  lemma EmptyFileSortsToZero(bound: nat)
    requires bound >= 2
    ensures SortFileRun([], bound) == [0]
  {
    CountSerialized([]);
    assert Loaded([], 1) == [0];
    assert SortSeq([0]) == Insert(0, []);
  }

  /** Split of [e, c, a] on [0, 2), a < c < e: the two values read merge into [c, e]. */
  lemma ShortLeftRun(input: seq<int>, start: nat, a: int, c: int, e: int)
    requires a < c < e && input == [e, c, a]
    ensures SplitRun(input, start, start + 2, 2) == [c, e]
  {
    var left, right := Reads(input, 0, 1), Reads(input, 1, 1);
    ReadsWithin(input, 0, 1);
    ReadsWithin(input, 1, 1);
    assert left == [e] && right == [c];
    assert SplitRun(input, start, start + 2, 2) ==
           MergeResult(Some(SortHalf(left, start, start, 1, 2)), Some(SortHalf(right, start + 1, start + 2, 1, 2)), 1, 1);
    PreparedWhole(left);
    PreparedWhole(right);
    SortSingleton(left);
    SortSingleton(right);
    PaddedWhole(left);
    PaddedWhole(right);
    MergeTakesRight(left, right);
    assert Merge(left, right[1..]) == left;
  }

  /** A single value is sorted already. */
  lemma SortSingleton(s: seq<int>)
    requires |s| == 1
    ensures SortSeq(s) == s
  {
    assert s[1..] == [];
    assert s == [s[0]];
  }

  /** Two values out of order are swapped. */
  lemma SortDescendingPair(s: seq<int>)
    requires |s| == 2 && s[0] > s[1]
    ensures SortSeq(s) == [s[1], s[0]]
  {
    SortSingleton(s[1..]);
    assert Insert(s[0], s[1..]) == [s[1]] + Insert(s[0], []);
  }

  /**
   * The left half of a split holds one value more than the segment its
   * recursive split is given.  For five values a < b < c < d < e in the
   * order [e, c, a, d, b] (such as [5, 3, 1, 4, 2]) and bound 2, the left
   * half [e, c, a] is split as [0, 2), which leaves out a, and the merge
   * reads the last value e a second time.
   */
  lemma SplitExample(input: seq<int>, start: nat, a: int, b: int, c: int, d: int, e: int)
    requires a < b < c < d < e && input == [e, c, a, d, b]
    ensures SplitRun(input, start, start + 5, 2) == [b, c, d, e, e]
  {
    var left, right := Reads(input, 0, 3), Reads(input, 3, 2);
    assert left == [e, c, a] && right == [d, b] by {
      ReadsWithin(input, 0, 3);
      ReadsWithin(input, 3, 2);
    }
    assert SortHalf(left, start, start + 2, 3, 2) == [c, e] by {
      ShortLeftRun(left, start, a, c, e);
    }
    assert SortHalf(right, start + 3, start + 5, 2, 2) == [b, d] by {
      PreparedWhole(right);
      SortDescendingPair(right);
    }
    MergeExample(SortHalf(left, start, start + 2, 3, 2), SortHalf(right, start + 3, start + 5, 2, 2), b, c, d, e);
  }

  /**
   * The merge that ends SplitExample: [c, e] read for three values is
   * [c, e, e], merged with [b, d].
   */
  lemma MergeExample(leftOut: seq<int>, rightOut: seq<int>, b: int, c: int, d: int, e: int)
    requires b < c < d < e && leftOut == [c, e] && rightOut == [b, d]
    ensures MergeResult(Some(leftOut), Some(rightOut), 3, 2) == [b, c, d, e, e]
  {
    var x := Padded(leftOut, 3);
    assert x == [c, e, e] by {
      PaddedPrefix(leftOut, 3);
      assert x[..2] == leftOut;
    }
    PaddedWhole(rightOut);
    var y := rightOut;
    MergeTakesRight(x, y);
    var y1 := y[1..];
    assert y1 == [d];
    MergeTakesLeft(x, y1);
    var x1 := x[1..];
    assert x1 == [e, e];
    MergeTakesRight(x1, y1);
    assert y1[1..] == [];
    assert Merge(x1, y1[1..]) == x1;
  }

  /**
   * sort_file on the five values of SplitExample: the run it returns is
   * sorted but is not a permutation of the file, a being lost and e read
   * twice.
   */
  lemma SplitLosesValue(input: seq<int>, a: int, b: int, c: int, d: int, e: int)
    requires a < b < c < d < e && input == [e, c, a, d, b]
    ensures SortFileRun(input, 2) == [b, c, d, e, e]
    ensures a in input && a !in SortFileRun(input, 2)
    ensures multiset(SortFileRun(input, 2)) != multiset(input)
  {
    CountSerialized(input);
    SplitExample(input, 0, a, b, c, d, e);
    assert input[2] == a;
    var out := SortFileRun(input, 2);
    assert a !in out;
    assert a in multiset(input) && a !in multiset(out);
  }

  /**
   * split with its left recursion given the whole left half, [start,
   * mid + 1) (the call as written is given [start, mid)).
   */
  function SplitFixed(input: seq<int>, start: nat, end: nat, bound: nat): (r: seq<int>)
    requires SplitCallable(input, start, end, bound)
    ensures |r| == if end == start then 1 else end - start
    decreases end - start, 1
  {
    if end - start == 0 then Reads(input, 0, 1) else FixedLevel(input, start, end, bound)
  }

  /** A level of SplitFixed: the merge of its two halves, each sorted on its own. */
  function FixedLevel(input: seq<int>, start: nat, end: nat, bound: nat): (r: seq<int>)
    requires SplitCallable(input, start, end, bound) && end - start != 0
    ensures |r| == end - start
    decreases end - start, 0
  {
    var mid := SplitRange(start, end - 1);
    var leftLen := LeftInterval(start, mid, end - 1);
    var rightLen := RightInterval(start, mid, end - 1);
    MergeResult(Some(FixedHalf(Reads(input, 0, leftLen), start, mid + 1, leftLen, bound)),
                Some(FixedHalf(Reads(input, leftLen, rightLen), mid + 1, end, rightLen, bound)),
                leftLen, rightLen)
  }

  /** One half inside SplitFixed: split again when it exceeds bound, sorted in memory otherwise. */
  function FixedHalf(half: seq<int>, start: nat, end: nat, len: nat, bound: nat): (r: seq<int>)
    requires len >= 1
    requires len > bound ==> SplitCallable(half, start, end, bound)
    ensures |r| >= 1
    decreases end - start, 2
  {
    if len > bound then SplitFixed(half, start, end, bound) else PreparedSort(half, len)
  }

  /** A level of SplitFixed, named by its halves. */
  lemma FixedLevelUnfold(input: seq<int>, start: nat, end: nat, bound: nat, mid: nat, leftLen: nat, rightLen: nat,
                         left: seq<int>, right: seq<int>)
    requires SplitCallable(input, start, end, bound) && end - start != 0
    requires mid == SplitRange(start, end - 1)
    requires leftLen == LeftInterval(start, mid, end - 1) && rightLen == RightInterval(start, mid, end - 1)
    requires left == Reads(input, 0, leftLen) && right == Reads(input, leftLen, rightLen)
    ensures leftLen >= 1 && (leftLen > bound ==> SplitCallable(left, start, mid + 1, bound))
    ensures rightLen >= 1 && (rightLen > bound ==> SplitCallable(right, mid + 1, end, bound))
    ensures FixedLevel(input, start, end, bound) ==
            MergeResult(Some(FixedHalf(left, start, mid + 1, leftLen, bound)),
                        Some(FixedHalf(right, mid + 1, end, rightLen, bound)),
                        leftLen, rightLen)
  {
  }

  /** The corrected split of a whole run is the reference sort of it. */
  lemma {:induction false} SplitFixedSorts(input: seq<int>, start: nat, end: nat, bound: nat)
    requires SplitCallable(input, start, end, bound) && end - start == |input|
    ensures SplitFixed(input, start, end, bound) == SortSeq(input)
    decreases end - start, 1
  {
    FixedLevelSorts(input, start, end, bound);
  }

  /** A level of the corrected split of a whole run is the reference sort of it. */
  lemma {:induction false} FixedLevelSorts(input: seq<int>, start: nat, end: nat, bound: nat)
    requires SplitCallable(input, start, end, bound) && end - start == |input| && end - start != 0
    ensures FixedLevel(input, start, end, bound) == SortSeq(input)
    decreases end - start, 0
  {
    var mid := SplitRange(start, end - 1);
    var leftLen := LeftInterval(start, mid, end - 1);
    var rightLen := RightInterval(start, mid, end - 1);
    var left, right := Reads(input, 0, leftLen), Reads(input, leftLen, rightLen);
    FixedLevelUnfold(input, start, end, bound, mid, leftLen, rightLen, left, right);
    FixedHalfSorts(left, start, mid + 1, leftLen, bound);
    FixedHalfSorts(right, mid + 1, end, rightLen, bound);
    SortedHalvesMerge(input, leftLen, rightLen);
  }

  /** A half sorted inside the corrected split is the reference sort of the half. */
  lemma {:induction false} FixedHalfSorts(half: seq<int>, start: nat, end: nat, len: nat, bound: nat)
    requires len == |half| >= 1
    requires len > bound ==> SplitCallable(half, start, end, bound) && end - start == len
    ensures FixedHalf(half, start, end, len, bound) == SortSeq(half)
    decreases end - start, 2
  {
    if len > bound {
      SplitFixedSorts(half, start, end, bound);
    } else {
      PreparedWhole(half);
    }
  }

  /**
   * sort_file with both mistakes put right: an empty file holds no number,
   * and split is SplitFixed.
   */
  function SortFileFixed(values: seq<int>, bound: nat): (r: seq<int>)
    requires bound >= 2
    ensures |r| == |values|
  {
    if values == [] then []
    else
      CountSerialized(values);
      var n := NumbersInText(Serialize(values));
      FixedHalf(values, 0, n, n, bound)
  }

  /** The corrected sort_file sorts every file: its output is the reference sort. */
  lemma SortFileFixedSorts(values: seq<int>, bound: nat)
    requires bound >= 2
    ensures SortFileFixed(values, bound) == SortSeq(values)
  {
    if values != [] {
      CountSerialized(values);
      FixedHalfSorts(values, 0, |values|, |values|, bound);
    }
  }
}
