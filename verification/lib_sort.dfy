/**
 * The external merge sort of Assignment_1/src/libsort.c.
 *
 * A temporary file is modelled by the run of values written to it (its text
 * is RunFormat.Serialize of the run).  Reading a run with fscanf is
 * sticky: a read past the last value fails and leaves the target as it
 * was, so the reader sees the last value again (SortSpec.Padded).  The
 * bound MAX_NUMBERS_LOADED is the parameter `bound` (MaxNumbersLoaded in
 * the source).
 */
module LibSort {
  import opened Wrappers
  import opened RunFormat
  import opened SortSpec
  import InPlaceSort
  import opened MergeLoop

  /** MAX_NUMBERS_LOADED: 2 MB worth of 4-byte ints. */
  const MaxNumbersLoaded: nat := 2 * 1024 * 1024 / 4

  /** split_range: the middle of [start, end], rounded down. */
  function SplitRange(start: nat, end: nat): (mid: nat)
    requires start <= end
    ensures start <= mid <= end
  {
    start + (end - start) / 2
  }

  /** calculate_left_interval: the length of [start, mid]. */
  function LeftInterval(start: nat, mid: nat, end: nat): (len: nat)
    requires start <= mid
    ensures len >= 1
  {
    mid - start + 1
  }

  /** calculate_right_interval: the length of (mid, end]. */
  function RightInterval(start: nat, mid: nat, end: nat): (len: nat)
    requires mid <= end
    ensures start <= mid ==> LeftInterval(start, mid, end) + len == end - start + 1
  {
    end - mid
  }

  /**
   * The two halves around SplitRange cover [start, last] exactly, the left
   * one holding the extra value when the length is odd.
   */
  lemma HalvesPartitionSegment(start: nat, last: nat)
    requires start <= last
    ensures LeftInterval(start, SplitRange(start, last), last)
            + RightInterval(start, SplitRange(start, last), last) == last - start + 1
    ensures LeftInterval(start, SplitRange(start, last), last) == (last - start + 2) / 2
    ensures RightInterval(start, SplitRange(start, last), last) == (last - start + 1) / 2
  {
  }

  /** fscanf of one value at read position pos; a failed read keeps current. */
  function Scan(run: seq<int>, pos: nat, current: int): (v: int)
    ensures pos < |run| ==> v == run[pos]
    ensures v in run || v == current
  {
    if pos < |run| then run[pos] else current
  }

  /**
   * transfer_numbers: copies len values from the read position cursor of
   * from, writing "%d " for all but the last and "%d" for the last.  The
   * first read must succeed (tmp is uninitialised before it) and len must
   * be positive (len - 1 is unsigned).
   */
  method TransferNumbers(from: seq<int>, cursor: nat, len: nat) returns (moved: seq<int>, text: string, next: nat)
    requires 1 <= len && cursor < |from|
    ensures moved == Reads(from, cursor, len)
    ensures cursor + len <= |from| ==> moved == from[cursor..cursor + len]
    ensures text == Serialize(moved)
    ensures next == cursor + len
  {
    moved, text := [], "";
    var tmp := 0;
    var i := 0;
    while i < len - 1
      invariant 0 <= i <= len - 1
      invariant moved == Reads(from, cursor, i)
      invariant i > 0 ==> tmp == StreamValue(from, cursor + i - 1)
      invariant text == Spaced(moved)
    {
      tmp := ReadNext(from, cursor, i, tmp);
      SpacedAppend(moved, tmp);
      text := text + Show(tmp) + " ";
      moved := moved + [tmp];
      i := i + 1;
    }
    tmp := ReadNext(from, cursor, i, tmp);
    SerializeAppend(moved, tmp);
    text := text + Show(tmp);
    moved := moved + [tmp];
    ReadsWithin(from, cursor, len);
    next := cursor + len;
  }

  /**
   * One fscanf of transfer_numbers: the i-th read from position cursor on,
   * which keeps the previous value when the run is exhausted.
   */
  method ReadNext(from: seq<int>, cursor: nat, i: nat, previous: int) returns (value: int)
    requires cursor < |from|
    requires i > 0 ==> previous == StreamValue(from, cursor + i - 1)
    ensures value == StreamValue(from, cursor + i)
    ensures Reads(from, cursor, i) + [value] == Reads(from, cursor, i + 1)
  {
    value := Scan(from, cursor + i, previous);
  }

  /**
   * What merge_files can be asked to read: a present run that is read at
   * all must hold a value (the first fscanf of a run has no earlier value
   * to keep), and a run copied alone is copied with transfer_numbers, which
   * needs a positive length.
   */
  predicate MergeReadable(left: Option<seq<int>>, right: Option<seq<int>>, leftLen: nat, rightLen: nat) {
    (left.Some? ==> leftLen == 0 || |left.value| >= 1) &&
    (right.Some? ==> rightLen == 0 || |right.value| >= 1) &&
    (left.None? && right.Some? ==> rightLen >= 1) &&
    (left.Some? && right.None? ==> leftLen >= 1)
  }

  /**
   * The values merge_files writes: nothing when both sides are missing, the
   * values read from the one present side, or the merge of what is read
   * from both.
   */
  function MergeResult(left: Option<seq<int>>, right: Option<seq<int>>, leftLen: nat, rightLen: nat): (r: seq<int>)
    requires MergeReadable(left, right, leftLen, rightLen)
    ensures |r| == (if left.Some? then leftLen else 0) + (if right.Some? then rightLen else 0)
  {
    match (left, right)
    case (None, None) => []
    case (None, Some(r)) => Padded(r, rightLen)
    case (Some(l), None) => Padded(l, leftLen)
    case (Some(l), Some(r)) => Merge(Padded(l, leftLen), Padded(r, rightLen))
  }

  /**
   * Read to their ends, sorted runs merge into the sorted permutation of
   * everything present; a single present run is copied unchanged.
   */
  lemma MergeResultOfSortedRuns(left: Option<seq<int>>, right: Option<seq<int>>)
    requires left.Some? ==> |left.value| >= 1 && Sorted(left.value)
    requires right.Some? ==> |right.value| >= 1 && Sorted(right.value)
    ensures var (l, r) := (if left.Some? then left.value else [], if right.Some? then right.value else []);
            MergeResult(left, right, |l|, |r|) == SortSeq(l + r)
  {
    var (l, r) := (if left.Some? then left.value else [], if right.Some? then right.value else []);
    PaddedWhole(l);
    PaddedWhole(r);
    if left.Some? && right.Some? {
      MergeIsSortOfBoth(l, r);
    } else if left.Some? {
      assert l + r == l;
      SortedPermutationIsSortSeq(l + r, l);
    } else {
      assert l + r == r;
      SortedPermutationIsSortSeq(l + r, r);
    }
  }

  /**
   * merge_files: a missing (NULL) side is skipped and the other side copied;
   * otherwise the two runs are merged, reading leftLen values from the left
   * run and rightLen from the right one, the left value first on a tie.
   */
  method MergeFiles(left: Option<seq<int>>, right: Option<seq<int>>, leftLen: nat, rightLen: nat)
    returns (out: seq<int>, text: string)
    requires MergeReadable(left, right, leftLen, rightLen)
    ensures out == MergeResult(left, right, leftLen, rightLen)
    ensures text == Serialize(out)
  {
    if left.None? && right.None? {
      return [], "";
    }
    if left.None? {
      var next;
      out, text, next := TransferNumbers(right.value, 0, rightLen);
      return;
    }
    if right.None? {
      var next;
      out, text, next := TransferNumbers(left.value, 0, leftLen);
      return;
    }
    out, text := MergeRuns(left.value, right.value, leftLen, rightLen);
  }


  /** The loop of merge_files once both runs are present. */
  method MergeRuns(l: seq<int>, r: seq<int>, leftLen: nat, rightLen: nat) returns (out: seq<int>, text: string)
    requires leftLen == 0 || |l| >= 1
    requires rightLen == 0 || |r| >= 1
    ensures out == Merge(Padded(l, leftLen), Padded(r, rightLen))
    ensures text == Serialize(out)
  {
    ghost var a, b := Padded(l, leftLen), Padded(r, rightLen);
    var c := Cursors(0, 0, Scan(l, 0, 0), Scan(r, 0, 0));
    out, text := [], "";
    if leftLen > 0 {
      ScanReadsPadded(l, leftLen, 0, 0);
    }
    if rightLen > 0 {
      ScanReadsPadded(r, rightLen, 0, 0);
    }
    if leftLen + rightLen == 0 {
      return;
    }
    MergingStart(a, b, c.leftNum, c.rightNum);
    while c.leftCnt < leftLen || c.rightCnt < rightLen
      invariant Merging(a, b, c, out, text)
      decreases leftLen - c.leftCnt + rightLen - c.rightCnt
    {
      c, out, text := MergeStep(l, r, leftLen, rightLen, c, out, text);
    }
    MergingDone(a, b, c, out, text);
  }

  /**
   * One iteration of merge_files' loop: the four branches of the source,
   * two of which write the left value and read the next one from the left
   * run, then the write of the value with a space unless it is the last.
   */
  method MergeStep(l: seq<int>, r: seq<int>, leftLen: nat, rightLen: nat, c: Cursors, out: seq<int>, text: string)
    returns (c': Cursors, out': seq<int>, text': string)
    requires leftLen == 0 || |l| >= 1
    requires rightLen == 0 || |r| >= 1
    requires Merging(Padded(l, leftLen), Padded(r, rightLen), c, out, text)
    requires c.leftCnt < leftLen || c.rightCnt < rightLen
    ensures Merging(Padded(l, leftLen), Padded(r, rightLen), c', out', text')
    ensures c'.leftCnt + c'.rightCnt == c.leftCnt + c.rightCnt + 1
  {
    ghost var a, b := Padded(l, leftLen), Padded(r, rightLen);
    var fromLeft :=
      if c.leftCnt == leftLen && c.rightCnt < rightLen then false
      else if c.rightCnt == rightLen && c.leftCnt < leftLen then true
      else c.leftNum <= c.rightNum && c.leftCnt < leftLen;
    MergingChoice(a, b, c, out, text, fromLeft);
    var toPrint;
    if fromLeft {
      toPrint := c.leftNum;
      if c.leftCnt + 1 < leftLen {
        ScanReadsPadded(l, leftLen, c.leftCnt + 1, c.leftNum);
      }
      MergingStepLeft(a, b, c, out, text, Scan(l, c.leftCnt + 1, c.leftNum));
      c' := c.(leftCnt := c.leftCnt + 1, leftNum := Scan(l, c.leftCnt + 1, c.leftNum));
    } else {
      toPrint := c.rightNum;
      if c.rightCnt + 1 < rightLen {
        ScanReadsPadded(r, rightLen, c.rightCnt + 1, c.rightNum);
      }
      MergingStepRight(a, b, c, out, text, Scan(r, c.rightCnt + 1, c.rightNum));
      c' := c.(rightCnt := c.rightCnt + 1, rightNum := Scan(r, c.rightCnt + 1, c.rightNum));
    }
    if c'.leftCnt == leftLen && c'.rightCnt == rightLen {
      text' := text + Show(toPrint);
    } else {
      text' := text + Show(toPrint) + " ";
    }
    out' := out + [toPrint];
  }

  /**
   * The read at position k of run (counting from 0) sees the k-th value of
   * Padded, given that the target holds the previous one.
   */
  lemma ScanReadsPadded(run: seq<int>, len: nat, k: nat, current: int)
    requires len == 0 || |run| >= 1
    requires k < len
    requires k > 0 ==> current == Padded(run, len)[k - 1]
    ensures Scan(run, k, current) == Padded(run, len)[k]
  {
    PaddedIndex(run, len);
  }


  /** merge: merge_files with the lengths of [start, mid] and (mid, end]. */
  method MergeSegments(left: Option<seq<int>>, right: Option<seq<int>>, start: nat, mid: nat, end: nat)
    returns (out: seq<int>)
    requires start <= mid <= end
    requires MergeReadable(left, right, LeftInterval(start, mid, end), RightInterval(start, mid, end))
    ensures out == MergeResult(left, right, LeftInterval(start, mid, end), RightInterval(start, mid, end))
  {
    var leftLen := LeftInterval(start, mid, end);
    var rightLen := RightInterval(start, mid, end);
    var text;
    out, text := MergeFiles(left, right, leftLen, rightLen);
  }

  /** What quick_sort_prepare produces from the first len reads of input. */
  function PreparedSort(input: seq<int>, len: nat): seq<int> {
    SortSeq(Loaded(input, len))
  }

  /**
   * quick_sort_prepare: loads len values into a zeroed array, sorts it in
   * place and writes it out.  len must be positive (len - 1 is unsigned).
   */
  method QuickSortPrepare(input: seq<int>, len: nat) returns (sorted: seq<int>, text: string)
    requires len >= 1
    ensures sorted == PreparedSort(input, len)
    ensures Sorted(sorted) && multiset(sorted) == multiset(Loaded(input, len))
    ensures text == Serialize(sorted)
  {
    var numbers := new int[len](_ => 0);
    LoadedIndex(input, len);
    var i := 0;
    while i < len
      invariant i <= len
      invariant forall k | 0 <= k < i :: numbers[k] == Loaded(input, len)[k]
      invariant forall k | i <= k < len :: numbers[k] == 0
    {
      if i < |input| {
        numbers[i] := input[i];
      }
      i := i + 1;
    }
    assert numbers[..] == Loaded(input, len);
    InPlaceSort.QuickSort(numbers, 0, len - 1);
    assert numbers[0..len] == numbers[..];
    sorted := numbers[..];
    SortedPermutationIsSortSeq(Loaded(input, len), sorted);
    text := WriteNumbers(sorted);
  }

  /** The output loop of quick_sort_prepare: "%d " for all but the last value, "%d" for the last. */
  method WriteNumbers(numbers: seq<int>) returns (text: string)
    requires |numbers| >= 1
    ensures text == Serialize(numbers)
  {
    var len := |numbers|;
    text := "";
    var i := 0;
    while i < len - 1
      invariant i <= len - 1
      invariant text == Spaced(numbers[..i])
    {
      SpacedPrefixStep(numbers, i);
      text := text + Show(numbers[i]) + " ";
      i := i + 1;
    }
    text := text + Show(numbers[len - 1]);
  }

  /**
   * The calls split can be given: a segment [start, end) of no value (the
   * degenerate case, which copies one value) or of at least two values,
   * all present in the input run, and a bound of at least two (with a
   * smaller bound a one-value segment would be split into an empty half,
   * whose transfer_numbers underflows).
   */
  predicate SplitCallable(input: seq<int>, start: nat, end: nat, bound: nat) {
    bound >= 2 && start <= end &&
    (end - start == 0 ==> |input| >= 1) &&
    (end - start != 0 ==> 2 <= end - start <= |input|)
  }

  /**
   * What split returns for the segment [start, end) of input, as written:
   * the left half holds end - start rounded up to a half, but the recursive
   * call on it is given [start, mid), one value short; the merge then reads
   * the full left length, so the last value of the recursive result is
   * read twice.
   */
  function SplitRun(input: seq<int>, start: nat, end: nat, bound: nat): (r: seq<int>)
    requires SplitCallable(input, start, end, bound)
    ensures |r| == if end == start then 1 else end - start
    decreases end - start, 1
  {
    if end - start == 0 then Reads(input, 0, 1) else SplitLevel(input, start, end, bound)
  }

  /**
   * A split of a segment of at least two values: the merge of its two
   * halves, each sorted on its own.
   */
  function SplitLevel(input: seq<int>, start: nat, end: nat, bound: nat): (r: seq<int>)
    requires SplitCallable(input, start, end, bound) && end - start != 0
    ensures |r| == end - start
    decreases end - start, 0
  {
    var mid := SplitRange(start, end - 1);
    var leftLen := LeftInterval(start, mid, end - 1);
    var rightLen := RightInterval(start, mid, end - 1);
    MergeResult(Some(SortHalf(Reads(input, 0, leftLen), start, mid, leftLen, bound)),
                Some(SortHalf(Reads(input, leftLen, rightLen), mid + 1, end, rightLen, bound)),
                leftLen, rightLen)
  }

  /**
   * One half of a split: the run of len values copied to a temporary run
   * and sorted by split on [start, end) when len exceeds bound, in memory
   * otherwise.
   */
  function SortHalf(half: seq<int>, start: nat, end: nat, len: nat, bound: nat): (r: seq<int>)
    requires len >= 1
    requires len > bound ==> SplitCallable(half, start, end, bound)
    ensures |r| >= 1
    decreases end - start, 2
  {
    if len > bound then SplitRun(half, start, end, bound) else PreparedSort(half, len)
  }

  /**
   * The sorting of one half inside split: recursively when it holds more
   * than bound values, with quick_sort_prepare otherwise.
   */
  method SortPart(half: seq<int>, start: nat, end: nat, len: nat, bound: nat) returns (out: seq<int>)
    requires len >= 1
    requires len > bound ==> SplitCallable(half, start, end, bound)
    ensures out == SortHalf(half, start, end, len, bound)
    decreases end - start, 3
  {
    if len > bound {
      out := Split(half, start, end, bound);
    } else {
      var text;
      out, text := QuickSortPrepare(half, len);
    }
  }

  /**
   * The two sorts of split, left half first: each recursively when it
   * holds more than bound values, with quick_sort_prepare otherwise.
   */
  method SortHalves(left: seq<int>, right: seq<int>, start: nat, mid: nat, end: nat, leftLen: nat, rightLen: nat,
                    bound: nat)
    returns (leftOut: seq<int>, rightOut: seq<int>)
    requires start <= mid < end
    requires leftLen >= 1 && (leftLen > bound ==> SplitCallable(left, start, mid, bound))
    requires rightLen >= 1 && (rightLen > bound ==> SplitCallable(right, mid + 1, end, bound))
    ensures leftOut == SortHalf(left, start, mid, leftLen, bound)
    ensures rightOut == SortHalf(right, mid + 1, end, rightLen, bound)
    decreases end - start, 0
  {
    leftOut := SortPart(left, start, mid, leftLen, bound);
    rightOut := SortPart(right, mid + 1, end, rightLen, bound);
  }

  /** Both halves of a split segment can be split again when they exceed bound. */
  lemma HalvesCallable(input: seq<int>, start: nat, end: nat, bound: nat, mid: nat, leftLen: nat, rightLen: nat,
                       left: seq<int>, right: seq<int>)
    requires SplitCallable(input, start, end, bound) && end - start != 0
    requires mid == SplitRange(start, end - 1)
    requires leftLen == LeftInterval(start, mid, end - 1) && rightLen == RightInterval(start, mid, end - 1)
    ensures left == Reads(input, 0, leftLen) && right == Reads(input, leftLen, rightLen) ==>
            leftLen >= 1 && (leftLen > bound ==> SplitCallable(left, start, mid, bound)) &&
            rightLen >= 1 && (rightLen > bound ==> SplitCallable(right, mid + 1, end, bound))
  {
  }

  /**
   * transfer_numbers into a fresh temporary file, which split only reads
   * back with fscanf: the file is the run of values written.
   */
  method TransferToTemp(from: seq<int>, cursor: nat, len: nat) returns (run: seq<int>, next: nat)
    requires 1 <= len && cursor < |from|
    ensures run == Reads(from, cursor, len)
    ensures next == cursor + len
  {
    var text;
    run, text, next := TransferNumbers(from, cursor, len);
  }

  /**
   * The two transfer_numbers calls of split: the first leftLen values of
   * the input go to one temporary run, the next rightLen to another.
   */
  method CopyHalves(input: seq<int>, leftLen: nat, rightLen: nat) returns (left: seq<int>, right: seq<int>)
    requires 1 <= leftLen && 1 <= rightLen && leftLen + rightLen <= |input|
    ensures left == Reads(input, 0, leftLen) && right == Reads(input, leftLen, rightLen)
  {
    var afterLeft, afterRight;
    left, afterLeft := TransferToTemp(input, 0, leftLen);
    right, afterRight := TransferToTemp(input, afterLeft, rightLen);
  }

  /**
   * split: a segment of no value copies one value of the input; any other
   * segment is split in two, see SplitSegment.
   */
  method Split(input: seq<int>, start: nat, end: nat, bound: nat) returns (out: seq<int>)
    requires SplitCallable(input, start, end, bound)
    ensures out == SplitRun(input, start, end, bound)
    decreases end - start, 2
  {
    if end - start == 0 {
      var next;
      out, next := TransferToTemp(input, 0, 1);
    } else {
      out := SplitSegment(input, start, end, bound);
    }
  }

  /**
   * The body of split for a segment of at least two values: copies the two
   * halves into temporary runs, sorts each one (recursively when it holds
   * more than bound values, in memory otherwise) and merges the results.
   */
  method SplitSegment(input: seq<int>, start: nat, end: nat, bound: nat) returns (out: seq<int>)
    requires SplitCallable(input, start, end, bound) && end - start != 0
    ensures out == SplitLevel(input, start, end, bound)
    decreases end - start, 1
  {
    var mid := SplitRange(start, end - 1);
    var leftLen := LeftInterval(start, mid, end - 1);
    var rightLen := RightInterval(start, mid, end - 1);
    var left, right := CopyHalves(input, leftLen, rightLen);
    HalvesCallable(input, start, end, bound, mid, leftLen, rightLen, left, right);
    var leftOut, rightOut := SortHalves(left, right, start, mid, end, leftLen, rightLen, bound);
    out := MergeSegments(Some(leftOut), Some(rightOut), start, mid, end - 1);
  }

  /**
   * What sort_file returns for a file holding the text of values, as
   * written: the count is count_numbers_in_file's, which is one for an
   * empty file.
   */
  function SortFileRun(values: seq<int>, bound: nat): (r: seq<int>)
    requires bound >= 2
    ensures |r| == if values == [] then 1 else |values|
  {
    CountSerialized(values);
    var n := NumbersInText(Serialize(values));
    if n > bound then SplitRun(values, 0, n, bound) else PreparedSort(values, n)
  }

  /**
   * sort_file: counts the numbers of the file and sorts it in memory when
   * they fit within bound, with split otherwise.  A file that cannot be
   * opened gives no result.
   */
  method SortFile(file: Option<seq<int>>, bound: nat) returns (result: Option<seq<int>>)
    requires bound >= 2
    ensures file.None? ==> result.None?
    ensures file.Some? ==> result == Some(SortFileRun(file.value, bound))
  {
    if file.None? {
      return None;
    }
    var values := file.value;
    var n := CountNumbersInFile(Serialize(values));
    CountSerialized(values);
    var out;
    if n > bound {
      out := Split(values, 0, n, bound);
    } else {
      var text;
      out, text := QuickSortPrepare(values, n);
    }
    result := Some(out);
  }

  /**
   * merge_sorted_files: merges two open runs, each counted with
   * count_numbers_in_file.  Both must hold a value, or the first read of
   * the merge has nothing to read.
   */
  method MergeSortedFiles(a: seq<int>, b: seq<int>) returns (out: seq<int>, text: string)
    requires |a| >= 1 && |b| >= 1
    ensures out == Merge(a, b)
    ensures Sorted(a) && Sorted(b) ==> out == SortSeq(a + b)
    ensures text == Serialize(out)
  {
    var aText, bText := Serialize(a), Serialize(b);
    var aLen := CountNumbersInFile(aText);
    var bLen := CountNumbersInFile(bText);
    CountSerialized(a);
    CountSerialized(b);
    out, text := MergeFiles(Some(a), Some(b), aLen, bLen);
    PaddedWhole(a);
    PaddedWhole(b);
    if Sorted(a) && Sorted(b) {
      MergeResultOfSortedRuns(Some(a), Some(b));
    }
  }
}
