/**
 * The loop of merge_files in Assignment_1/src/libsort.c, as a state over
 * the two runs it reads: what it has written, what it holds to compare,
 * and how each of its branches moves that state along.
 */
module MergeLoop {
  import opened RunFormat
  import opened SortSpec

  /**
   * The variables of merge_files' loop besides its output: how many values
   * of each run were written and the value last read from each.
   */
  datatype Cursors = Cursors(leftCnt: nat, rightCnt: nat, leftNum: int, rightNum: int)

  /**
   * The state of merge_files' loop over the values a and b it reads: leftNum
   * and rightNum hold the next values to compare, out followed by the merge
   * of what is left is the whole merge, and text is the text of out, without
   * the trailing space once both runs are done.
   */
  ghost predicate Merging(a: seq<int>, b: seq<int>, c: Cursors, out: seq<int>, text: string) {
    c.leftCnt <= |a| && c.rightCnt <= |b| &&
    (c.leftCnt < |a| ==> c.leftNum == a[c.leftCnt]) &&
    (c.rightCnt < |b| ==> c.rightNum == b[c.rightCnt]) &&
    out + Merge(a[c.leftCnt..], b[c.rightCnt..]) == Merge(a, b) &&
    text == if c.leftCnt == |a| && c.rightCnt == |b| then Serialize(out) else Spaced(out)
  }

  /** Before the first write: the first value of each run is read. */
  lemma MergingStart(a: seq<int>, b: seq<int>, leftNum: int, rightNum: int)
    requires |a| > 0 ==> leftNum == a[0]
    requires |b| > 0 ==> rightNum == b[0]
    requires |a| + |b| > 0
    ensures Merging(a, b, Cursors(0, 0, leftNum, rightNum), [], "")
  {
    assert a[0..] == a && b[0..] == b;
  }

  /** Once both runs are written, out is their merge and text its text. */
  lemma MergingDone(a: seq<int>, b: seq<int>, c: Cursors, out: seq<int>, text: string)
    requires Merging(a, b, c, out, text)
    requires c.leftCnt == |a| && c.rightCnt == |b|
    ensures out == Merge(a, b) && text == Serialize(out)
  {
    assert a[c.leftCnt..] == [] && b[c.rightCnt..] == [];
  }

  /**
   * The branches of merge_files' loop: the left value is written when the
   * right run is done or, with both runs unfinished, when it is no larger
   * than the right value; the right value is written otherwise.
   */
  lemma MergingChoice(a: seq<int>, b: seq<int>, c: Cursors, out: seq<int>, text: string, fromLeft: bool)
    requires Merging(a, b, c, out, text)
    requires c.leftCnt < |a| || c.rightCnt < |b|
    requires fromLeft == if c.leftCnt == |a| && c.rightCnt < |b| then false
                         else if c.rightCnt == |b| && c.leftCnt < |a| then true
                         else c.leftNum <= c.rightNum && c.leftCnt < |a|
    ensures fromLeft ==> c.leftCnt < |a| && (c.rightCnt == |b| || a[c.leftCnt] <= b[c.rightCnt])
    ensures !fromLeft ==> c.rightCnt < |b| && (c.leftCnt == |a| || a[c.leftCnt] > b[c.rightCnt])
  {
  }

  /** Writing the left value and reading the next one keeps Merging. */
  lemma MergingStepLeft(a: seq<int>, b: seq<int>, c: Cursors, out: seq<int>, text: string, next: int)
    requires Merging(a, b, c, out, text)
    requires c.leftCnt < |a| && (c.rightCnt == |b| || a[c.leftCnt] <= b[c.rightCnt])
    requires c.leftCnt + 1 < |a| ==> next == a[c.leftCnt + 1]
    ensures Merging(a, b, c.(leftCnt := c.leftCnt + 1, leftNum := next), out + [c.leftNum],
                    if c.leftCnt + 1 == |a| && c.rightCnt == |b| then text + Show(c.leftNum)
                    else text + Show(c.leftNum) + " ")
  {
    SerializeAppend(out, c.leftNum);
    SpacedAppend(out, c.leftNum);
    AdvanceLeft(out, a, b, c.leftCnt, c.rightCnt);
  }

  /** Writing the right value and reading the next one keeps Merging. */
  lemma MergingStepRight(a: seq<int>, b: seq<int>, c: Cursors, out: seq<int>, text: string, next: int)
    requires Merging(a, b, c, out, text)
    requires c.rightCnt < |b| && (c.leftCnt == |a| || a[c.leftCnt] > b[c.rightCnt])
    requires c.rightCnt + 1 < |b| ==> next == b[c.rightCnt + 1]
    ensures Merging(a, b, c.(rightCnt := c.rightCnt + 1, rightNum := next), out + [c.rightNum],
                    if c.leftCnt == |a| && c.rightCnt + 1 == |b| then text + Show(c.rightNum)
                    else text + Show(c.rightNum) + " ")
  {
    SerializeAppend(out, c.rightNum);
    SpacedAppend(out, c.rightNum);
    AdvanceRight(out, a, b, c.leftCnt, c.rightCnt);
  }

  /** One left step of the merge loop, at the read positions i and j. */
  lemma AdvanceLeft(out: seq<int>, a: seq<int>, b: seq<int>, i: nat, j: nat)
    requires i < |a| && j <= |b|
    requires j == |b| || a[i] <= b[j]
    requires out + Merge(a[i..], b[j..]) == Merge(a, b)
    ensures (out + [a[i]]) + Merge(a[i + 1..], b[j..]) == Merge(a, b)
  {
    TakeLeft(a, b, i, j);
    ReplaceRest(out, Merge(a[i..], b[j..]), a[i], Merge(a[i + 1..], b[j..]), Merge(a, b));
  }

  lemma TakeLeft(a: seq<int>, b: seq<int>, i: nat, j: nat)
    requires i < |a| && j <= |b|
    requires j == |b| || a[i] <= b[j]
    ensures Merge(a[i..], b[j..]) == [a[i]] + Merge(a[i + 1..], b[j..])
  {
    assert a[i..][1..] == a[i + 1..];
    MergeTakesLeft(a[i..], b[j..]);
  }

  /** One right step of the merge loop, at the read positions i and j. */
  lemma AdvanceRight(out: seq<int>, a: seq<int>, b: seq<int>, i: nat, j: nat)
    requires i <= |a| && j < |b|
    requires i == |a| || a[i] > b[j]
    requires out + Merge(a[i..], b[j..]) == Merge(a, b)
    ensures (out + [b[j]]) + Merge(a[i..], b[j + 1..]) == Merge(a, b)
  {
    TakeRight(a, b, i, j);
    ReplaceRest(out, Merge(a[i..], b[j..]), b[j], Merge(a[i..], b[j + 1..]), Merge(a, b));
  }

  lemma TakeRight(a: seq<int>, b: seq<int>, i: nat, j: nat)
    requires i <= |a| && j < |b|
    requires i == |a| || a[i] > b[j]
    ensures Merge(a[i..], b[j..]) == [b[j]] + Merge(a[i..], b[j + 1..])
  {
    assert b[j..][1..] == b[j + 1..];
    MergeTakesRight(a[i..], b[j..]);
  }

  /** Moving the head of the rest of a merge to the output. */
  lemma ReplaceRest(out: seq<int>, rest: seq<int>, x: int, tail: seq<int>, total: seq<int>)
    requires out + rest == total && rest == [x] + tail
    ensures (out + [x]) + tail == total
  {
  }
}
