/**
 * Value-level specifications for the sort engine of
 * Assignment_1/src/libsort.c: sortedness, a reference sort, the left-biased
 * two-way merge, and what a reader sees when it asks a run for more values
 * than it holds.
 */
module SortSpec {

  predicate Sorted(s: seq<int>) {
    forall i, j | 0 <= i < j < |s| :: s[i] <= s[j]
  }

  /** Every value of the multiset m is at least lo. */
  predicate AllAtLeast(m: multiset<int>, lo: int) {
    forall x | x in m :: lo <= x
  }

  /** A value no larger than anything in a sorted t can go in front of it. */
  lemma ConsSorted(x: int, t: seq<int>)
    requires Sorted(t) && AllAtLeast(multiset(t), x)
    ensures Sorted([x] + t)
  {
    forall j | 0 <= j < |t| ensures x <= t[j] {
      assert t[j] in multiset(t);
    }
  }

  /** Insert x into s in front of the first larger-or-equal value. */
  function Insert(x: int, s: seq<int>): (r: seq<int>)
    ensures |r| == |s| + 1
  {
    if s == [] || x <= s[0] then [x] + s else [s[0]] + Insert(x, s[1..])
  }

  /** Insert adds x to the values of s and keeps a sorted s sorted. */
  lemma {:induction false} InsertSorts(x: int, s: seq<int>)
    ensures multiset(Insert(x, s)) == multiset(s) + multiset{x}
    ensures Sorted(s) ==> Sorted(Insert(x, s))
  {
    if !(s == [] || x <= s[0]) {
      InsertSorts(x, s[1..]);
      assert s == [s[0]] + s[1..];
      InsertStep(x, s, Insert(x, s[1..]));
    }
  }

  lemma InsertStep(x: int, s: seq<int>, t: seq<int>)
    requires s != [] && s[0] < x
    requires multiset(t) == multiset(s[1..]) + multiset{x}
    requires Sorted(s[1..]) ==> Sorted(t)
    ensures Sorted(s) ==> Sorted([s[0]] + t)
  {
    if Sorted(s) {
      assert Sorted(s[1..]);
      forall y | y in multiset(t) ensures s[0] <= y {
        if y != x {
          assert y in multiset(s[1..]);
          var i :| 0 <= i < |s[1..]| && s[1..][i] == y;
          assert s[i + 1] == y;
        }
      }
      ConsSorted(s[0], t);
    }
  }

  /** A reference sort (insertion sort): the sorted permutation of s. */
  function SortSeq(s: seq<int>): (r: seq<int>)
    ensures |r| == |s|
  {
    if s == [] then []
    else
      Insert(s[0], SortSeq(s[1..]))
  }

  /** The reference sort is sorted and a permutation of its input. */
  lemma {:induction false} SortSeqSorts(s: seq<int>)
    ensures Sorted(SortSeq(s))
    ensures multiset(SortSeq(s)) == multiset(s)
  {
    if s != [] {
      SortSeqSorts(s[1..]);
      InsertSorts(s[0], SortSeq(s[1..]));
      assert s == [s[0]] + s[1..];
    }
  }

  /** The first value of a sorted non-empty sequence is its least value. */
  lemma SortedHeadIsLeast(s: seq<int>)
    requires Sorted(s) && s != []
    ensures AllAtLeast(multiset(s), s[0])
  {
    forall y | y in multiset(s) ensures s[0] <= y {
      var i :| 0 <= i < |s| && s[i] == y;
    }
  }

  /** Removing the head of a sequence removes one copy of it from its multiset. */
  lemma TailMultiset(x: seq<int>)
    requires x != []
    ensures multiset(x[1..]) == multiset(x) - multiset{x[0]}
  {
    assert x == [x[0]] + x[1..];
  }

  /** Two sorted sequences with the same values start with the same value. */
  lemma SortedHeadsAgree(x: seq<int>, y: seq<int>)
    requires Sorted(x) && Sorted(y) && x != [] && y != []
    requires multiset(x) == multiset(y)
    ensures x[0] == y[0]
  {
    SortedHeadIsLeast(x);
    SortedHeadIsLeast(y);
    assert x[0] in multiset(x) && y[0] in multiset(y);
  }

  /**
   * A multiset has one sorted arrangement: two sorted sequences with the
   * same values are equal.
   */
  lemma {:induction false} SortedUnique(x: seq<int>, y: seq<int>)
    requires Sorted(x) && Sorted(y)
    requires multiset(x) == multiset(y)
    ensures x == y
  {
    assert |x| == |multiset(x)| == |multiset(y)| == |y|;
    if x != [] {
      SortedHeadsAgree(x, y);
      TailMultiset(x);
      TailMultiset(y);
      SortedUnique(x[1..], y[1..]);
      assert x == [x[0]] + x[1..] && y == [y[0]] + y[1..];
    }
  }

  /** The sorted permutation of s is the reference sort of s. */
  lemma SortedPermutationIsSortSeq(s: seq<int>, r: seq<int>)
    requires Sorted(r) && multiset(r) == multiset(s)
    ensures r == SortSeq(s)
  {
    SortSeqSorts(s);
    SortedUnique(r, SortSeq(s));
  }

  /**
   * The classic two-way merge of libsort.c's merge_files: emit the smaller
   * head, the left one when the heads are equal.
   */
  function Merge(a: seq<int>, b: seq<int>): (r: seq<int>)
    ensures |r| == |a| + |b|
    decreases |a| + |b|
  {
    if a == [] then b
    else if b == [] then a
    else if a[0] <= b[0] then [a[0]] + Merge(a[1..], b)
    else [b[0]] + Merge(a, b[1..])
  }

  /** A merge is a permutation of its two inputs together. */
  lemma {:induction false} MergePermutes(a: seq<int>, b: seq<int>)
    ensures multiset(Merge(a, b)) == multiset(a) + multiset(b)
    decreases |a| + |b|
  {
    if a != [] && b != [] {
      if a[0] <= b[0] {
        MergePermutes(a[1..], b);
        HeadMultiset(a);
        assert Merge(a, b) == [a[0]] + Merge(a[1..], b);
      } else {
        MergePermutes(a, b[1..]);
        HeadMultiset(b);
        assert Merge(a, b) == [b[0]] + Merge(a, b[1..]);
      }
    }
  }

  /** The values of a non-empty sequence are its head and the values of its tail. */
  lemma HeadMultiset(a: seq<int>)
    requires a != []
    ensures multiset(a) == multiset{a[0]} + multiset(a[1..])
  {
    assert a == [a[0]] + a[1..];
  }

  /** Merging two sorted runs gives a sorted run. */
  lemma {:induction false} MergeSorted(a: seq<int>, b: seq<int>)
    requires Sorted(a) && Sorted(b)
    ensures Sorted(Merge(a, b))
    decreases |a| + |b|
  {
    if a != [] && b != [] {
      SortedHeadIsLeast(a);
      SortedHeadIsLeast(b);
      assert a == [a[0]] + a[1..] && b == [b[0]] + b[1..];
      if a[0] <= b[0] {
        MergeSorted(a[1..], b);
        MergeHeadBound(a[1..], b, a[0]);
        ConsSorted(a[0], Merge(a[1..], b));
      } else {
        MergeSorted(a, b[1..]);
        MergeHeadBound(a, b[1..], b[0]);
        ConsSorted(b[0], Merge(a, b[1..]));
      }
    }
  }

  /**
   * The tie rule of merge_files: the left head goes first when it is no
   * larger than the right head, or when the right run is used up.
   */
  lemma MergeTakesLeft(a: seq<int>, b: seq<int>)
    requires a != [] && (b == [] || a[0] <= b[0])
    ensures Merge(a, b) == [a[0]] + Merge(a[1..], b)
  {
    if b == [] {
      assert a == [a[0]] + a[1..];
    }
  }

  /** The right head goes first when it is strictly smaller, or the left run is used up. */
  lemma MergeTakesRight(a: seq<int>, b: seq<int>)
    requires b != [] && (a == [] || a[0] > b[0])
    ensures Merge(a, b) == [b[0]] + Merge(a, b[1..])
  {
    if a == [] {
      assert b == [b[0]] + b[1..];
    }
  }

  lemma MergeHeadBound(a: seq<int>, b: seq<int>, lo: int)
    requires AllAtLeast(multiset(a), lo) && AllAtLeast(multiset(b), lo)
    ensures AllAtLeast(multiset(Merge(a, b)), lo)
  {
    MergePermutes(a, b);
  }

  /** The merge of two sorted runs is the reference sort of their concatenation. */
  lemma MergeIsSortOfBoth(a: seq<int>, b: seq<int>)
    requires Sorted(a) && Sorted(b)
    ensures Merge(a, b) == SortSeq(a + b)
  {
    MergeSorted(a, b);
    MergePermutes(a, b);
    SortedPermutationIsSortSeq(a + b, Merge(a, b));
  }

  /**
   * The k-th value a reader gets from a run (k counting from 0): fscanf on
   * an exhausted stream fails and leaves its target unchanged, so every read
   * past the end sees the last value again.
   */
  function StreamValue(run: seq<int>, k: nat): int
    requires |run| >= 1
  {
    run[if k < |run| then k else |run| - 1]
  }

  /**
   * The len values a reader of run sees from read position pos on: read by
   * read, each one StreamValue.
   */
  function Reads(run: seq<int>, pos: nat, len: nat): (r: seq<int>)
    requires len == 0 || |run| >= 1
    ensures |r| == len
  {
    if len == 0 then [] else Reads(run, pos, len - 1) + [StreamValue(run, pos + len - 1)]
  }

  /** The k-th value read from position pos on is StreamValue(run, pos + k). */
  lemma {:induction false} ReadsIndex(run: seq<int>, pos: nat, len: nat)
    requires len == 0 || |run| >= 1
    ensures forall k | 0 <= k < len :: Reads(run, pos, len)[k] == StreamValue(run, pos + k)
  {
    if len > 0 {
      ReadsIndex(run, pos, len - 1);
    }
  }

  /** Reads that stay within the run's values are a slice of it. */
  lemma ReadsWithin(run: seq<int>, pos: nat, len: nat)
    requires len == 0 || |run| >= 1
    ensures pos + len <= |run| ==> Reads(run, pos, len) == run[pos..pos + len]
  {
    ReadsIndex(run, pos, len);
  }

  /** The len values a reader of run sees from its start. */
  function Padded(run: seq<int>, len: nat): (r: seq<int>)
    requires len == 0 || |run| >= 1
    ensures |r| == len
  {
    Reads(run, 0, len)
  }

  /** The k-th value a reader of run sees is StreamValue(run, k). */
  lemma PaddedIndex(run: seq<int>, len: nat)
    requires len == 0 || |run| >= 1
    ensures forall k | 0 <= k < len :: Padded(run, len)[k] == StreamValue(run, k)
  {
    ReadsIndex(run, 0, len);
  }

  /**
   * A reader that asks for no more than the run holds sees a prefix of it;
   * one that asks for more sees the whole run and then its last value again.
   */
  lemma {:induction false} PaddedPrefix(run: seq<int>, len: nat)
    requires len == 0 || |run| >= 1
    ensures len <= |run| ==> Padded(run, len) == run[..len]
    ensures len > |run| ==> Padded(run, len)[..|run|] == run
    ensures len > |run| ==> forall k | |run| <= k < len :: Padded(run, len)[k] == run[|run| - 1]
  {
    PaddedIndex(run, len);
  }

  /** A reader that asks a run for exactly its length sees the run. */
  lemma PaddedWhole(run: seq<int>)
    ensures Padded(run, |run|) == run
  {
    PaddedPrefix(run, |run|);
    assert run[..|run|] == run;
  }

  /**
   * The values quick_sort_prepare loads: its array comes zeroed from calloc
   * and a failed fscanf leaves an entry as it was.
   */
  function Loaded(input: seq<int>, len: nat): (r: seq<int>)
    ensures |r| == len
  {
    if len == 0 then [] else Loaded(input, len - 1) + [if len - 1 < |input| then input[len - 1] else 0]
  }

  /** Entry k of what quick_sort_prepare loads is input[k], or zero past the input's end. */
  lemma {:induction false} LoadedIndex(input: seq<int>, len: nat)
    ensures forall k | 0 <= k < len :: Loaded(input, len)[k] == if k < |input| then input[k] else 0
  {
    if len > 0 {
      LoadedIndex(input, len - 1);
    }
  }

  /** Loading no more than the input holds loads a prefix; entries past its end stay zero. */
  lemma {:induction false} LoadedPrefix(input: seq<int>, len: nat)
    ensures len <= |input| ==> Loaded(input, len) == input[..len]
    ensures forall k | |input| <= k < len :: Loaded(input, len)[k] == 0
  {
    LoadedIndex(input, len);
  }

  /** Re-reading the last value of a sorted run keeps it sorted. */
  lemma PaddedSorted(run: seq<int>, len: nat)
    requires |run| >= 1 && Sorted(run)
    ensures Sorted(Padded(run, len))
  {
    var r := Padded(run, len);
    PaddedIndex(run, len);
    forall i, j | 0 <= i < j < len ensures r[i] <= r[j] {
      assert r[i] == StreamValue(run, i) && r[j] == StreamValue(run, j);
    }
  }

  /** Every value a reader sees was in the run. */
  lemma PaddedDrawsFrom(run: seq<int>, len: nat)
    requires len == 0 || |run| >= 1
    ensures forall x | x in Padded(run, len) :: x in run
  {
    PaddedIndex(run, len);
    forall x | x in Padded(run, len) ensures x in run {
      var k :| 0 <= k < len && Padded(run, len)[k] == x;
      assert StreamValue(run, k) == x;
    }
  }
}
