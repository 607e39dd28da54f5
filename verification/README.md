# Verified model of the external sort, the shell parser and the user file system

This project models, in Dafny, the core of a set of systems-programming
assignments:

- **The latency-bounded external sort** (`Assignment_1/src/libsort.c`). A run
  of integers is kept as text: numbers separated by one space, with no
  trailing space. `sort_file` counts the numbers in the input. When the
  count is at most the working-set bound, it sorts them in memory with
  `quick_sort_prepare` and `quick_sort`. Otherwise `split` cuts the range in
  two, sorts each half (by recursion or in memory) and joins the halves with
  `merge_files`. `merge_sorted_files` merges two finished runs.
  - Runs are `seq<int>`; their text is `RunFormat.Serialize`.
  - Once a stream is exhausted, `fscanf` leaves the target unchanged. The
    merge therefore keeps re-reading the last value. This is modelled by
    `SortSpec.Padded` and `SortSpec.Reads`.
  - `calloc` zero-fills, so a short read into the in-memory array leaves
    zeros. This is modelled by `SortSpec.Loaded`.
  - The in-place quicksort keeps its `array`.
  - The timing helpers of `Assignment_1/src/libutil.c` are modelled as pure
    functions.
- **The shell** (`Assignment_2`). It covers:
  - `checkClosedParenthesis` of `main.c`, as an array loop;
  - the parts of `parser.c` that exist: `decideCommandType`,
    `isSpecialCharacter`, `parseRegular`, `insertToStringSequence` and
    `freeCommand`.
  - The `Command` record is a class. Its `argv` is an `array` that grows as
    in the source: first 8 slots, then 2 more each time it is full.
- **The user file system** (`Assignment_3/userfs.c`). It is one object,
  `UserFs.FileSystem`, whose fields hold the global state of the C file:
  - the file list;
  - the descriptor table with its capacity, its count and its round-robin
    pointer;
  - the error code.

  Each public call `ufs_open`, `ufs_write`, `ufs_read`, `ufs_close`,
  `ufs_delete` and `ufs_resize` is a method, as is each static helper.
  - A file's blocks are one flat `seq<byte>` made of whole 512-byte blocks.
  - The methods copy block by block, with the same offset and `cur_block`
    bookkeeping as the source, except where a read stops at the end of the
    file exactly on a block boundary: there the model moves `cur_block` to
    the next block (see the third row of Findings, and Left out).
  - Every method keeps the invariant `UfsState.Inv`, which says:
    - the list holds exactly the files, each once;
    - each file holds `size / 512 + 1` blocks and at most 100 MiB;
    - no two live files share a name;
    - every descriptor points at a live file, within its size, with
      `cur_block == offset / 512`;
    - each file's `refs` is the number of descriptors on it;
    - the count of descriptors ever made bounds the occupied slots;
    - a file marked for deletion still has descriptors.

Modules:

- `Wrappers`: the `Option` datatype.
- `LibUtil`: `libutil.c`.
- `ShellMain`: `Assignment_2/src/main.c`.
- `Parser`: `parser.c`.
- `RunFormat`: the text of a run, and `count_numbers_in_file`.
- `SortSpec`: the specification functions `Sorted`, `SortSeq`, `Merge`,
  `Padded`, `Reads` and `Loaded`.
- `MergeLoop`: the loop invariant of `merge_files`.
- `InPlaceSort`: `quick_sort`.
- `LibSort`: the rest of `libsort.c`.
- `SplitProps`: what `split` and `sort_file` compute, and the corrected split.
- `UfsSpec`: the value-level meaning of files and descriptors.
- `UfsState`: the invariant, and one lemma per state transition.
- `UfsBlocks`: the block loops.
- `UserFs`: the `FileSystem` class.

The merge in `merge_files` takes the left value on a tie.

Where the code and its written description disagree, the model follows the
code, with one exception: `ufs_read`'s cursor at the end of a file on a
block boundary follows the corrected behaviour of the third row of Findings, and
`UfsSpec.ReadCursorAsWritten` keeps the code's. For example, `split` on `[5, 3, 1, 4, 2]` with bound 2 does not give
`[1, 2, 3, 4, 5]` (see Findings).

## Model

| member | source | states |
|---|---|---|
| LibUtil.MicrosecondsOf | Assignment_1/src/libutil.c:13-16 | for a well-formed timespec, the microsecond count divided by 10^6 is the seconds and its remainder is the nanoseconds / 1000 |
| LibUtil.MicrosecondsMonotone | Assignment_1/src/libutil.c:9-17 | a later timespec never gives a smaller microsecond count |
| LibUtil.TimeDiff | Assignment_1/src/libutil.c:19-26 | seconds·10^6 + milliseconds·1000 + microseconds equals end - start, with milliseconds and microseconds below 1000 |
| LibUtil.TimeDiffUnique | Assignment_1/src/libutil.c:22-26 | any decomposition with those bounds is the one print_time_diff computes |
| ShellMain.ToggleCountIsPositions | Assignment_2/src/main.c:19-23 | the number of toggles equals the number of positions holding a quote not preceded by a backslash |
| ShellMain.EscapedBackslashStillEscapes | Assignment_2/src/main.c:20 | an escaped backslash before a quote still suppresses the quote's toggle (only the preceding character is looked at) |
| ShellMain.CheckClosedParenthesis | Assignment_2/src/main.c:17-25 | true exactly when the number of unescaped quotes among the first len characters is even |
| Parser.DecideCommandType | Assignment_2/src/parser/parser.c:46-70 | the result is Regular or one of the six operator types, never Comment or Unknown |
| Parser.IsSpecialCharacter | Assignment_2/src/parser/parser.c:72-80 | the pipe, the ampersand and the greater-than sign are special: a one-character input is decided as an operator exactly when its character is special |
| Parser.DecideMatchesSpecial | Assignment_2/src/parser/parser.c:46-80 | not Regular iff the character is special; a doubled operator iff the next character repeats it; the type tells which of '\|', '&', '>' is at pos |
| Parser.WordEnd | Assignment_2/src/parser/parser.c:139-151 | the word scan ends within the input, and past the start when the start is not a space or a special character |
| Parser.RegularEndStops | Assignment_2/src/parser/parser.c:130-172 | parseRegular stops at the end of the input or on a special character |
| Parser.QuotesInSlice | Assignment_2/src/parser/parser.c:141-145 | counting quotes in the token equals counting them in the input at the same place |
| Parser.WordEndQuoted | Assignment_2/src/parser/parser.c:140-151 | inside a word every space or special character lies within an open quote |
| Parser.WordIsWellFormed | Assignment_2/src/parser/parser.c:136-151 | a token is non-empty and its separators are all quoted |
| Parser.WordsWellFormed | Assignment_2/src/parser/parser.c:130-172 | every token parseRegular produces is well formed |
| Parser.Command.constructor | Assignment_2/test/units/parser_ut.cpp:25 | a fresh command has no name, no argv and zero count and capacity |
| Parser.Command.InsertToStringSequence | Assignment_2/src/parser/parser.c:99-125 | the arguments become the old ones plus the token; the name is unchanged; capacity starts at 8 and grows by 2 only when full; argv is kept when there was room |
| Parser.FreeCommand | Assignment_2/src/parser/parser.c:82-97 | with argv, argv becomes null and argc and the capacity 0; without argv nothing changes |
| Parser.ReceivedConcat | Assignment_2/src/parser/parser.c:130-171 | receiving words one batch after another equals receiving them all at once |
| Parser.ParseRegular | Assignment_2/src/parser/parser.c:127-173 | returns where the regular segment ends; the command becomes Received(old name, old arguments, the words): the first word becomes the name when there is none and the others are appended, in order (ReceivedConcat proves that batches compose) |
| Parser.ReceiveWord | Assignment_2/src/parser/parser.c:163-167 | the token becomes the name when there is none, and is appended to argv otherwise |
| Parser.ScanWord | Assignment_2/src/parser/parser.c:136-151 | the loop's end position is the word end of the specification |
| RunFormat.DigitChar | Assignment_1/src/libsort.c:32 | a digit is printed as a character '0'..'9' |
| RunFormat.NatDigits | Assignment_1/src/libsort.c:32 | a number prints as at least one character |
| RunFormat.Show | Assignment_1/src/libsort.c:32 | "%d" prints at least one character |
| RunFormat.IsDelimiter | Assignment_1/src/libsort.c:250-252 | a space, newline or NUL counts; no delimiter is a digit, a minus sign or the byte that reads as EOF, so a number's text never contains one |
| RunFormat.NatDigitsAreDigits | Assignment_1/src/libsort.c:32 | a natural number prints as digits only |
| RunFormat.ShowIsWord | Assignment_1/src/libsort.c:32 | "%d" prints a minus and digits only, never a delimiter |
| RunFormat.NumbersInText | Assignment_1/src/libsort.c:246-258 | the count is at least 1 (the end of the file always counts) |
| RunFormat.TextStep | Assignment_1/src/libsort.c:30-35 | printing "%d " for each value but the last and "%d" for the last gives the run's text |
| RunFormat.Serialize | Assignment_1/src/libsort.c:27-37 | the text of a run: empty exactly for the empty run; otherwise it ends on a digit (no trailing space) and takes at least one character per value plus one separator between values |
| RunFormat.SpacedPrefixStep | Assignment_1/src/libsort.c:192-193 | each loop step of the writer extends the text by one number and a space |
| RunFormat.SerializeAppend | Assignment_1/src/libsort.c:34-35 | the text of a run ends with its last number, without a trailing space |
| RunFormat.SpacedAppend | Assignment_1/src/libsort.c:30-33 | the spaced text grows by the number and a space |
| RunFormat.CountSkipsWord | Assignment_1/src/libsort.c:250-255 | characters that are not delimiters do not change the count |
| RunFormat.CountSpaced | Assignment_1/src/libsort.c:246-258 | spaced numbers followed by a word count as their number plus one |
| RunFormat.CountSerialized | Assignment_1/src/libsort.c:246-258 | counting the numbers in a run's text gives its length, and 1 for the empty run |
| RunFormat.CountNumbersInFile | Assignment_1/src/libsort.c:246-258 | the loop's count equals the specification count |
| SortSpec.ConsSorted | Assignment_1/src/libsort.c:142-179 | a least element before a sorted sequence keeps it sorted |
| SortSpec.Insert | Assignment_1/src/libsort.c:142-179 | insertion adds exactly one element |
| SortSpec.InsertSorts | Assignment_1/src/libsort.c:142-179 | insertion adds the element to the multiset and keeps sortedness |
| SortSpec.InsertStep | Assignment_1/src/libsort.c:142-179 | inserting after a smaller head keeps a sorted sequence sorted |
| SortSpec.SortSeq | Assignment_1/src/libsort.c:142-179 | the reference sort keeps the length |
| SortSpec.SortSeqSorts | Assignment_1/src/libsort.c:142-179 | the reference sort is sorted and a permutation of its input |
| SortSpec.SortedHeadIsLeast | Assignment_1/src/libsort.c:142-179 | the head of a sorted sequence is its least element |
| SortSpec.TailMultiset | Assignment_1/src/libsort.c:142-179 | dropping the head removes exactly that element from the multiset |
| SortSpec.SortedHeadsAgree | Assignment_1/src/libsort.c:142-179 | sorted permutations of each other start with the same element |
| SortSpec.SortedUnique | Assignment_1/src/libsort.c:142-179 | two sorted sequences with the same multiset are equal |
| SortSpec.SortedPermutationIsSortSeq | Assignment_1/src/libsort.c:142-179 | any sorted permutation of s is SortSeq(s) |
| SortSpec.Merge | Assignment_1/src/libsort.c:100-126 | the merge of two runs has their total length |
| SortSpec.MergePermutes | Assignment_1/src/libsort.c:100-126 | the merge is a permutation of both runs together |
| SortSpec.HeadMultiset | Assignment_1/src/libsort.c:100-126 | a run's multiset is its head plus its tail |
| SortSpec.MergeSorted | Assignment_1/src/libsort.c:100-126 | merging sorted runs gives a sorted run |
| SortSpec.MergeTakesLeft | Assignment_1/src/libsort.c:107-114 | on a tie, or with the right run empty, the left value is emitted |
| SortSpec.MergeTakesRight | Assignment_1/src/libsort.c:103-106 | when the right head is strictly smaller, or the left run is empty, the right value is emitted |
| SortSpec.MergeHeadBound | Assignment_1/src/libsort.c:100-126 | a lower bound of both runs bounds their merge |
| SortSpec.MergeIsSortOfBoth | Assignment_1/src/libsort.c:100-126 | merging sorted runs sorts their concatenation |
| SortSpec.Reads | Assignment_1/src/libsort.c:27-37 | reading len values gives len values |
| SortSpec.ReadsIndex | Assignment_1/src/libsort.c:27-37 | the k-th value read is the stream's value at cursor + k (the last one repeated once the stream is exhausted) |
| SortSpec.ReadsWithin | Assignment_1/src/libsort.c:27-37 | within the run, the values read are the run's slice |
| SortSpec.Padded | Assignment_1/src/libsort.c:95-126 | the merge sees exactly len values of a run |
| SortSpec.PaddedIndex | Assignment_1/src/libsort.c:95-126 | the k-th value seen is the stream's k-th value |
| SortSpec.PaddedPrefix | Assignment_1/src/libsort.c:105-117 | up to the run's length it is the run; past it, the last value repeats |
| SortSpec.PaddedWhole | Assignment_1/src/libsort.c:95-126 | reading exactly the run's length gives the run |
| SortSpec.Loaded | Assignment_1/src/libsort.c:184-187 | the loaded array has len values |
| SortSpec.LoadedIndex | Assignment_1/src/libsort.c:184-187 | slot k holds the k-th input value, or 0 past the input |
| SortSpec.LoadedPrefix | Assignment_1/src/libsort.c:184-187 | loading no more than the input gives its prefix; slots past the input stay 0 |
| SortSpec.PaddedSorted | Assignment_1/src/libsort.c:105-117 | repeating the last value of a sorted run keeps it sorted |
| SortSpec.PaddedDrawsFrom | Assignment_1/src/libsort.c:105-117 | every value the merge sees comes from the run |
| MergeLoop.MergingStart | Assignment_1/src/libsort.c:95-99 | after the first two reads the loop invariant holds with nothing emitted |
| MergeLoop.MergingDone | Assignment_1/src/libsort.c:100-126 | when both counts are reached the output is the merge and the text is its serialization |
| MergeLoop.MergingChoice | Assignment_1/src/libsort.c:103-119 | the branch chain picks the left value exactly when it is the merge's next value |
| MergeLoop.MergingStepLeft | Assignment_1/src/libsort.c:107-114 | emitting the left value and reading the next keeps the invariant |
| MergeLoop.MergingStepRight | Assignment_1/src/libsort.c:103-106 | emitting the right value and reading the next keeps the invariant |
| MergeLoop.AdvanceLeft | Assignment_1/src/libsort.c:107-114 | the output plus the rest of the merge stays the whole merge after a left step |
| MergeLoop.TakeLeft | Assignment_1/src/libsort.c:111-114 | the merge of the remainders starts with the left head when it is not larger |
| MergeLoop.AdvanceRight | Assignment_1/src/libsort.c:103-106 | the output plus the rest of the merge stays the whole merge after a right step |
| MergeLoop.TakeRight | Assignment_1/src/libsort.c:115-118 | the merge of the remainders starts with the right head when it is smaller |
| MergeLoop.ReplaceRest | Assignment_1/src/libsort.c:121-125 | moving one emitted value from the rest to the output keeps the total |
| InPlaceSort.RangePermutation | Assignment_1/src/libsort.c:142-179 | equal outside a range and equal as multisets means the range is a permutation |
| InPlaceSort.SplitAround | Assignment_1/src/libsort.c:142-179 | an array is its prefix, range and suffix |
| InPlaceSort.CancelSides | Assignment_1/src/libsort.c:142-179 | equal multisets with equal sides have equal middles |
| InPlaceSort.BoundsOfSlice | Assignment_1/src/libsort.c:155-171 | elementwise bounds on a slice bound its multiset |
| InPlaceSort.JoinAroundPivot | Assignment_1/src/libsort.c:169-178 | a sorted part at most the pivot, then the pivot, then a sorted part above it, is sorted |
| InPlaceSort.Swap | Assignment_1/src/libsort.c:162-171 | the two entries are exchanged, all others kept, the multiset unchanged |
| InPlaceSort.Partition | Assignment_1/src/libsort.c:151-171 | the pivot lands at j, with everything before it at most the pivot and everything after it (up to last) greater, a permutation of the range |
| InPlaceSort.QuickSort | Assignment_1/src/libsort.c:142-179 | the range first..last is sorted and a permutation of the old range; nothing outside it changes |
| InPlaceSort.SortedAfterRecursion | Assignment_1/src/libsort.c:175-178 | partitioning and then sorting both sides sorts the range and permutes it |
| LibSort.SplitRange | Assignment_1/src/libsort.c:12-15 | the midpoint lies between start and end |
| LibSort.LeftInterval | Assignment_1/src/libsort.c:17-20 | the left length is at least 1 |
| LibSort.RightInterval | Assignment_1/src/libsort.c:22-25 | the right length end - mid; with the left length it covers [start, end] exactly |
| LibSort.HalvesPartitionSegment | Assignment_1/src/libsort.c:211-213 | of the n = last - start + 1 values of the segment the left run takes (n+1)/2 and the right n/2, so together they take all n |
| LibSort.TransferNumbers | Assignment_1/src/libsort.c:27-37 | moves the next len values of the stream (the whole slice when the run has them) and writes their text; the cursor advances by len |
| LibSort.ReadNext | Assignment_1/src/libsort.c:31 | one fscanf reads the stream's next value, extending what was read by one |
| LibSort.Scan | Assignment_1/src/libsort.c:31 | fscanf's target is the value at the read position while one is left; a failed read keeps the old value, so the result is a run value or the kept one |
| LibSort.MergeResult | Assignment_1/src/libsort.c:67-132 | the output's length counts only the runs that exist |
| LibSort.MergeResultOfSortedRuns | Assignment_1/src/libsort.c:67-132 | for sorted runs read to their own lengths, the result is the sort of their union, including when one or both are missing |
| LibSort.MergeFiles | Assignment_1/src/libsort.c:67-132 | the output is the merge result (empty, a copy of the one existing run, or the merge of both) and the text is its serialization |
| LibSort.MergeRuns | Assignment_1/src/libsort.c:95-126 | the loop emits the merge of the two runs as seen through fscanf, as text |
| LibSort.MergeStep | Assignment_1/src/libsort.c:101-125 | one pass of the loop keeps the invariant and emits exactly one value |
| LibSort.ScanReadsPadded | Assignment_1/src/libsort.c:105-117 | the value fscanf leaves in the variable is the padded run's next value |
| LibSort.MergeSegments | Assignment_1/src/libsort.c:134-140 | merge merges with the lengths computed from start, mid and end |
| LibSort.QuickSortPrepare | Assignment_1/src/libsort.c:181-199 | the output is sorted and a permutation of the len loaded values (zero-filled past the input), written as text |
| LibSort.WriteNumbers | Assignment_1/src/libsort.c:191-195 | the writer produces the run's text |
| LibSort.SplitRun | Assignment_1/src/libsort.c:201-244 | the split of end - start values has end - start values, or 1 at the base case |
| LibSort.SplitLevel | Assignment_1/src/libsort.c:211-243 | a split level outputs end - start values |
| LibSort.SortHalf | Assignment_1/src/libsort.c:223-229 | a half's output is non-empty |
| LibSort.SortPart | Assignment_1/src/libsort.c:223-229 | a half is split again when above the bound and quick-sorted otherwise |
| LibSort.SortHalves | Assignment_1/src/libsort.c:223-230 | both halves are sorted, the left with the source's range start..mid and the right with mid+1..end |
| LibSort.HalvesCallable | Assignment_1/src/libsort.c:215-229 | the halves meet the recursion's precondition |
| LibSort.TransferToTemp | Assignment_1/src/libsort.c:215-220 | the temporary file receives the next len values of the stream |
| LibSort.CopyHalves | Assignment_1/src/libsort.c:215-220 | the left temporary receives the first leftLen values and the right one the next rightLen |
| LibSort.Split | Assignment_1/src/libsort.c:201-244 | split's output equals the specification SplitRun |
| LibSort.SplitSegment | Assignment_1/src/libsort.c:210-243 | a non-trivial segment's output equals SplitLevel |
| LibSort.SortFileRun | Assignment_1/src/libsort.c:261-289 | the sorted run has as many values as the input, or 1 for an empty input |
| LibSort.SortFile | Assignment_1/src/libsort.c:261-289 | a file that cannot be opened gives no output; otherwise the output is SortFileRun |
| LibSort.MergeSortedFiles | Assignment_1/src/libsort.c:292-299 | the output is the merge of the two runs, the sort of both together when they are sorted, as text |
| SplitProps.SplitRunSorted | Assignment_1/src/libsort.c:201-244 | every split output is sorted, at any depth |
| SplitProps.SplitLevelSorted | Assignment_1/src/libsort.c:211-243 | every split level's output is sorted |
| SplitProps.SortHalfSorted | Assignment_1/src/libsort.c:223-229 | every half's output is sorted |
| SplitProps.DrawnFromTransitive | Assignment_1/src/libsort.c:201-244 | drawn-from composes |
| SplitProps.ReadsDrawsFrom | Assignment_1/src/libsort.c:27-37 | transferred values come from the source run |
| SplitProps.MergeResultDrawsFrom | Assignment_1/src/libsort.c:67-132 | merged values come from the merged runs |
| SplitProps.SplitRunDrawsFrom | Assignment_1/src/libsort.c:201-244 | every value split outputs occurs in its input |
| SplitProps.SplitLevelDrawsFrom | Assignment_1/src/libsort.c:211-243 | every value a split level outputs occurs in its input |
| SplitProps.SortHalfDrawsFrom | Assignment_1/src/libsort.c:223-229 | every value a half outputs occurs in the half |
| SplitProps.SortFileSorted | Assignment_1/src/libsort.c:261-289 | sort_file's output is always sorted |
| SplitProps.SortFileWithinTwoBounds | Assignment_1/src/libsort.c:261-289 | for 1 to 2·bound values, sort_file's output is exactly the sorted input |
| SplitProps.SortFileAtMaxNumbersLoaded | Assignment_1/src/libsort.c:261-289 | with MAX_NUMBERS_LOADED itself as the bound, every file of 1 to 2·MAX_NUMBERS_LOADED values comes out exactly sorted |
| SplitProps.PreparedWhole | Assignment_1/src/libsort.c:181-199 | the in-memory sort of a whole run is its sort |
| SplitProps.SplitWithinTwoBounds | Assignment_1/src/libsort.c:201-244 | one split level above the bound, with both halves in memory, sorts its input exactly |
| SplitProps.SortedHalves | Assignment_1/src/libsort.c:211-236 | merging the in-memory sorts of the two halves sorts the whole |
| SplitProps.SortedHalvesMerge | Assignment_1/src/libsort.c:211-236 | merging the sorts of the two halves sorts the whole |
| SplitProps.SortedRunsMerge | Assignment_1/src/libsort.c:67-132 | merging the sorts of two runs sorts their concatenation |
| SplitProps.SortSingleton | Assignment_1/src/libsort.c:147-149 | one value is already sorted |
| SplitProps.SortDescendingPair | Assignment_1/src/libsort.c:142-179 | a descending pair is sorted into its reverse |
| SplitProps.ShortLeftRun | Assignment_1/src/libsort.c:204-244 | split of three values with bound 2 returns only two of them |
| SplitProps.MergeExample | Assignment_1/src/libsort.c:95-126 | merging [c, e] read as three values with [b, d] gives [b, c, d, e, e] |
| SplitProps.SplitExample | Assignment_1/src/libsort.c:201-244 | split of [e, c, a, d, b] with bound 2 gives [b, c, d, e, e] |
| SplitProps.SplitLosesValue | Assignment_1/src/libsort.c:224 | sort_file with bound 2 on [e, c, a, d, b] loses a and repeats e: the output is not a permutation |
| SplitProps.EmptyFileSortsToZero | Assignment_1/src/libsort.c:246-258 | an empty file sorts to [0] |
| SplitProps.SplitFixed | Assignment_1/src/libsort.c:201-244 | the corrected split outputs end - start values |
| SplitProps.FixedLevel | Assignment_1/src/libsort.c:211-243 | a corrected split level outputs end - start values |
| SplitProps.FixedHalf | Assignment_1/src/libsort.c:223-229 | a corrected half's output is non-empty |
| SplitProps.FixedLevelUnfold | Assignment_1/src/libsort.c:211-243 | with the left range start..mid+1, each half's recursion receives exactly its own length |
| SplitProps.SplitFixedSorts | Assignment_1/src/libsort.c:201-244 | the corrected split outputs the sort of its input, at any depth |
| SplitProps.FixedLevelSorts | Assignment_1/src/libsort.c:211-243 | a corrected level outputs the sort of its input |
| SplitProps.FixedHalfSorts | Assignment_1/src/libsort.c:223-229 | a corrected half outputs the sort of the half |
| SplitProps.SortFileFixed | Assignment_1/src/libsort.c:261-289 | the corrected sort_file keeps the input's length, including 0 |
| SplitProps.SortFileFixedSorts | Assignment_1/src/libsort.c:261-289 | the corrected sort_file outputs exactly the sorted input for every input and bound |
| UfsSpec.Zeros | Assignment_3/userfs.c:467 | a new block is zero-filled |
| UfsSpec.BlocksFor | Assignment_3/userfs.c:453-518 | a file of size bytes has size/512 + 1 blocks: enough to hold it, and none left empty except the last |
| UfsSpec.Content | Assignment_3/userfs.c:31-50 | a file's content has its size |
| UfsSpec.OverwriteSpec | Assignment_3/userfs.c:171-199 | after a write the data holds buf at the offset and keeps the old bytes before and after; it grows only when the write runs past the end |
| UfsSpec.ReadSpan | Assignment_3/userfs.c:222-267 | a read returns at most size bytes, all the bytes up to the end when fewer remain, and none at or past the end |
| UfsSpec.ReadBackWrite | Assignment_3/userfs.c:148-267 | reading back at the same offset returns what was written |
| UfsSpec.ReadGrownPart | Assignment_3/userfs.c:453-479 | bytes added by growing a file read back as zeros |
| UfsSpec.Occupied | Assignment_3/userfs.c:96-98 | no more slots are taken than the table has |
| UfsSpec.Nones | Assignment_3/userfs.c:534-542 | the new slots of a grown table are empty |
| UfsSpec.SameFilesCounts | Assignment_3/userfs.c:604-623 | moving descriptors within their file changes no reference count and no occupancy |
| UfsSpec.UpdateCounts | Assignment_3/userfs.c:561-592 | setting one slot changes each file's count and the occupancy by exactly that slot's difference |
| UfsSpec.AppendNonesCounts | Assignment_3/userfs.c:525-545 | growing the table changes no count |
| UfsSpec.FreeSlotExists | Assignment_3/userfs.c:568-572 | when fewer slots are taken than exist, a free one exists |
| UfsSpec.NoRefsNoDesc | Assignment_3/userfs.c:285-298 | a file with no references has no descriptor on it |
| UfsSpec.NoDescNoRefs | Assignment_3/userfs.c:428-451 | a file with no descriptor on it has no references |
| UfsSpec.Clamp | Assignment_3/userfs.c:610-621 | a descriptor on the file past its end is moved to the end, in the last block; other descriptors and the access bits are kept |
| UfsSpec.Clamped | Assignment_3/userfs.c:604-623 | the clamped table has the same slots on the same files |
| UfsSpec.OpenAccess | Assignment_3/userfs.c:128-130 | without an access flag the descriptor may read and write; an explicit flag is kept; read-only cannot write; every descriptor can read or write |
| UfsSpec.WithAccess | Assignment_3/userfs.c:128-130 | the flags are kept and only read-write is ever added, so the result always holds an access flag |
| UfsSpec.NewDesc | Assignment_3/userfs.c:561-566 | the new descriptor is on the file at offset 0 in the block of that offset; read-write grants both rights and any access flag grants at least one |
| UfsSpec.ReadCursorKeepsBlock | Assignment_3/userfs.c:229-264 | with the corrected cursor, cur_block stays offset / 512 after any read |
| UfsSpec.ReadToBlockEndLeavesCursor | Assignment_3/userfs.c:250-256 | as written, reading a 512-byte file whole leaves cur_block 0 at offset 512, so the next write goes to byte 0; the corrected cursor advances to block 1 |
| UfsSpec.ReadCursorAsWritten | Assignment_3/userfs.c:229-264 | the cursor of ufs_read as written: the same offset as the corrected cursor, and the same block except at the end of the file on a block boundary, where it stays one block behind |
| UfsSpec.FindIn | Assignment_3/userfs.c:338-348 | a found file is in the list, has the name and is not marked for deletion |
| UfsSpec.FindInComplete | Assignment_3/userfs.c:338-348 | nothing is found iff no listed file has the name unmarked |
| UfsSpec.RemoveSpec | Assignment_3/userfs.c:437-448 | unlinking keeps exactly the other files, each once |
| UfsState.NewFile | Assignment_3/userfs.c:387-426 | a new file is one zeroed block, empty, unreferenced, unmarked and named |
| UfsState.EmptyInv | Assignment_3/userfs.c:69-99 | the empty initial state satisfies the invariant |
| UfsState.ValidIdxOnFile | Assignment_3/userfs.c:594-602 | a valid slot's descriptor is on a live file, within its size, and that file has references |
| UfsState.ValidIdx | Assignment_3/userfs.c:594-602 | the check every descriptor call of UserFs.FileSystem makes on its table: an index inside the table whose slot holds a descriptor; that slot counts among its file's references |
| UfsState.CreateFileInv | Assignment_3/userfs.c:387-426 | appending a new file keeps the invariant and the name finds it |
| UfsState.FindInAppend | Assignment_3/userfs.c:414-424 | a name not found before finds the file appended at the end |
| UfsState.RealDeleteInv | Assignment_3/userfs.c:428-451 | freeing a detached file and unlinking it keeps the invariant |
| UfsState.UnusedDetached | Assignment_3/userfs.c:285-298 | a file without references can be freed |
| UfsState.GrowTableInv | Assignment_3/userfs.c:525-545 | adding empty slots keeps the invariant |
| UfsState.Capacity | Assignment_3/userfs.c:525-545 | the new capacity never shrinks and exceeds the count when the table was full |
| UfsState.OpenedOn | Assignment_3/userfs.c:141-145 | after placing the descriptor, its slot holds it, the file gains one reference and the name still finds the file |
| UfsState.PlaceDescInv | Assignment_3/userfs.c:561-576 | placing a new descriptor in a free slot keeps the invariant |
| UfsState.PlaceDescsOk | Assignment_3/userfs.c:561-566 | a new descriptor at offset 0 keeps descriptors well placed |
| UfsState.PlaceFilesOk | Assignment_3/userfs.c:574-575 | the file's refs grows with its descriptors |
| UfsState.DropDescInv | Assignment_3/userfs.c:579-592 | emptying a slot keeps the invariant, freeing the file when it was marked and this was its last descriptor |
| UfsState.ShapeKept | Assignment_3/userfs.c:31-50 | unchanged names, marks and list keep the list and name invariants |
| UfsState.DescsKept | Assignment_3/userfs.c:52-60 | unchanged descriptors on unchanged sizes stay valid |
| UfsState.DropDetached | Assignment_3/userfs.c:583-590 | a marked file losing its last descriptor can be freed |
| UfsState.DropKeeps | Assignment_3/userfs.c:583-592 | otherwise dropping the descriptor and one reference keeps the invariant |
| UfsState.DropFilesOk | Assignment_3/userfs.c:583-586 | refs drops with the descriptor |
| UfsState.WriteStep | Assignment_3/userfs.c:171-201 | the file takes the written data and the descriptor moves past it, to the block its offset is in; the invariant is kept |
| UfsState.WrittenFile | Assignment_3/userfs.c:171-199 | the written file is valid and holds the overwritten content |
| UfsState.MoveDescInv | Assignment_3/userfs.c:193-201 | moving a descriptor within its file keeps the invariant |
| UfsState.ReplaceFileInv | Assignment_3/userfs.c:453-518 | replacing a file's bytes keeps the invariant when it grows; when it shrinks only descriptors past the end can break it |
| UfsState.ClampInv | Assignment_3/userfs.c:604-623 | clamping descriptors to the new end restores the invariant |
| UfsState.MarkInv | Assignment_3/userfs.c:520-523 | marking keeps the invariant and the name no longer finds the file |
| UfsState.DeleteUnusedFinds | Assignment_3/userfs.c:284-298 | after unlinking the found file the name finds nothing |
| UfsState.FindInSameNames | Assignment_3/userfs.c:338-348 | the search depends only on names and marks |
| UfsState.FindInRefs | Assignment_3/userfs.c:338-348 | opening a file does not change what a name finds |
| UfsBlocks.SpliceSlices | Assignment_3/userfs.c:183 | splicing a chunk changes only its own bytes |
| UfsBlocks.BlocksMonotone | Assignment_3/userfs.c:453-479 | a larger size never needs fewer blocks |
| UfsBlocks.PieceInBlock | Assignment_3/userfs.c:174-186 | the piece written lies within the current block |
| UfsBlocks.PieceBlocks | Assignment_3/userfs.c:186-194 | after a piece, the block count covers the new offset |
| UfsBlocks.CopyPiece | Assignment_3/userfs.c:183 | copying the next bytes of buf advances the write invariant |
| UfsBlocks.WriteAddBlock | Assignment_3/userfs.c:188-192 | appending a zero block keeps the write invariant |
| UfsBlocks.WriteDone | Assignment_3/userfs.c:171-199 | at the end of the loop, the bytes are the old content overwritten with buf |
| UfsBlocks.PieceStep | Assignment_3/userfs.c:174-194 | the piece fits the block; a filled block moves the cursor to the next block, otherwise the block is kept |
| UfsBlocks.CopyInBlock | Assignment_3/userfs.c:174-186 | copies as much of buf as fits in the current block, and at least one byte |
| UfsBlocks.WritePiece | Assignment_3/userfs.c:173-200 | one pass of the write loop copies at least one byte, adds a block when the cursor runs off the last one, and keeps cur_block == offset / 512 |
| UfsBlocks.WriteBlocks | Assignment_3/userfs.c:171-201 | the loop leaves the file's content overwritten with buf, grown past the end when needed, with whole blocks, and the cursor past buf |
| UfsBlocks.ReadPieceFacts | Assignment_3/userfs.c:230-264 | a piece is positive and within the file; a block-aligned end means the next block |
| UfsBlocks.ReadPiece | Assignment_3/userfs.c:229-264 | one pass copies the next bytes of the file, within the current block, and moves the cursor |
| UfsBlocks.ReadBlocks | Assignment_3/userfs.c:226-267 | the loop returns the read span and leaves the cursor after it |
| UfsBlocks.ZeroPiece | Assignment_3/userfs.c:465-473 | zeroing the next bytes advances the extension invariant |
| UfsBlocks.ExtendAddBlock | Assignment_3/userfs.c:466-472 | appending a zero block keeps the extension invariant |
| UfsBlocks.ExtendBlocks | Assignment_3/userfs.c:453-479 | the file grows with zero bytes to newSize, with the blocks that size needs |
| UfsBlocks.KeepPrefix | Assignment_3/userfs.c:481-518 | bytes before the new size are untouched |
| UfsBlocks.ReduceArith | Assignment_3/userfs.c:494-507 | taking at most a block off the size lowers the full-block count by at most one |
| UfsBlocks.ReduceBlocks | Assignment_3/userfs.c:481-518 | the file keeps its first newSize bytes and exactly the blocks that size needs |
| UserFs.FreeSlotFrom | Assignment_3/userfs.c:568-572 | the search ends at the first free slot from start, going round the end |
| UserFs.FileSystem.constructor | Assignment_3/userfs.c:69-99 | the initial state: no files, an empty table, no error, and the invariant |
| UserFs.FileSystem.FindFile | Assignment_3/userfs.c:338-348 | the walk finds what FindIn specifies |
| UserFs.FileSystem.CreateFile | Assignment_3/userfs.c:387-426 | a new empty file at the end of the list, with a fresh identity, found by its name; nothing else changes |
| UserFs.FileSystem.RealDeleteFile | Assignment_3/userfs.c:428-451 | the file is gone from the map and the list; nothing else changes |
| UserFs.FileSystem.ExtendFdListIfNeeded | Assignment_3/userfs.c:525-545 | when count has reached the capacity the table doubles (0 becomes 1) with empty slots; afterwards count is below the capacity |
| UserFs.FileSystem.CreateFd | Assignment_3/userfs.c:547-577 | after growing, the descriptor goes into the first free slot met going round from rr (every slot passed on the way is taken); refs and count rise by one and rr is that slot; the whole new state is Placed(Grown(old state)) |
| UserFs.FileSystem.PlaceFd | Assignment_3/userfs.c:561-576 | the new descriptor at offset 0 in slot p; refs and count up by one; rr := p |
| UserFs.FileSystem.DeleteFd | Assignment_3/userfs.c:579-592 | the slot is emptied and the file loses a reference, and is freed when it was marked and this was the last |
| UserFs.FileSystem.ExtendFile | Assignment_3/userfs.c:453-479 | the content becomes the old content followed by zeros up to newSize; nothing else changes |
| UserFs.FileSystem.ReduceFile | Assignment_3/userfs.c:481-518 | the content becomes its first newSize bytes; nothing else changes |
| UserFs.FileSystem.ClampTable | Assignment_3/userfs.c:607-620 | the walk over the table changes nothing itself; it yields the table with every descriptor on the file past its end put at the end (Clamped), and its count of descriptors on the file is that file's RefCount |
| UserFs.FileSystem.MoveOverflowingFds | Assignment_3/userfs.c:604-623 | every descriptor on the file past its end moves to the end, in the last block; the walk's count of descriptors on the file equals refs (the source's assert); the invariant is restored |
| UserFs.FileSystem.Open | Assignment_3/userfs.c:124-146 | no file and no Create: -1 and NoFile with the state unchanged; otherwise NoErr, and the whole new state is the old one (or, with Create, the old one plus an empty file at the end of the list) with the table grown and a new descriptor with the requested access (read and write by default) in slot fd - 1, refs and count up by one and rr at that slot |
| UserFs.FileSystem.OpenOn | Assignment_3/userfs.c:141-145 | the returned number is the new descriptor's slot plus one; the file gains one reference; the whole new state is the grown table with the descriptor placed, count up by one and rr at the slot |
| UserFs.FileSystem.Write | Assignment_3/userfs.c:148-202 | bad descriptor: NoFile; no write access: NoPermission; past 100 MiB: NoMem; each with -1 and the state unchanged; otherwise it returns the size and the file holds buf at the offset, with the descriptor past it |
| UserFs.FileSystem.WriteAt | Assignment_3/userfs.c:171-201 | the file and the descriptor are updated as Written specifies |
| UserFs.FileSystem.Read | Assignment_3/userfs.c:204-268 | bad descriptor: NoFile; no read access: NoPermission; otherwise the bytes of the read span, their count, and the descriptor moved past them, to the block of its offset |
| UserFs.FileSystem.Close | Assignment_3/userfs.c:270-282 | bad descriptor: -1 and NoFile, unchanged; otherwise 0, the slot is emptied and the file loses one reference, being freed and unlinked when it was marked for deletion and this was its last descriptor; count, rr and everything else stay as they were |
| UserFs.FileSystem.Delete | Assignment_3/userfs.c:284-298 | no file: -1 and NoFile; unreferenced: freed; referenced: marked; in both cases the name no longer finds it |
| UserFs.FileSystem.Resize | Assignment_3/userfs.c:300-334 | bad descriptor: NoFile; past 100 MiB: NoMem; growing pads with zeros; shrinking keeps the prefix and moves overflowing descriptors to the end |

## Left out

- Allocation failures are not modelled: `calloc`, `malloc` or `realloc` returning NULL, `tmpfile` failing, and the `false` returns of `ufs_extend_file` and `ufs_reduce_file` that follow from them. Memory is unbounded in the model.
- The memory leak of `freeCommand` (`argv` is set to NULL before it is freed) cannot be told apart in a garbage-collected model. Only the field updates are stated.
- The out-of-range store `token[endPos] = 0` at `Assignment_2/src/parser/parser.c:161`:
  - it writes at the input position rather than at the token's length;
  - the model's token is the input slice `startPos..endPos`.
- `parser` and `parser_free` (`Assignment_2/src/parser/parser.c:18-32`) are left out. `parser` is an unfinished stub without a return, and `parser_free` only loops over it.
- `Assignment_2/src/executor/executor.c`, `Assignment_4/thread_pool.c` and `Assignment_1/src/main.c` are not part of this model. This covers the N-way final merge and the coroutine scheduling.
- Yield checkpoints, latency accounting, `trace_id`, `ctx_switch_count` and `get_time_in_microsec` are left out. The clock is left out: `LibUtil.MicrosecondsOf` takes the timespec fields as parameters. `print_numbers` and the trace output (`printf` is compiled out) are left out too.
- `FILE*` handles:
  - A file is the list of its numbers.
  - Opening a file that does not exist is the `None` input of `LibSort.SortFile`.
  - `rewind` and `fclose` are implicit.
  - LibSort.SortFileRun and LibSort.SortFile assume the input file's text is exactly `Serialize(values)`: numbers separated by single spaces with no trailing delimiter. A real file ending in a newline or a space counts one number more (`Assignment_1/src/libsort.c:250-254`), and `quick_sort_prepare` then also sorts a `calloc` zero; the model does not express such files.
  - `count_numbers_in_file` stores `fgetc`'s result in a `char`. The model takes `char` as signed, so byte 0xFF compares equal to `EOF` and ends the count (`RunFormat.EofByte`).
- `MAX_NUMBERS_LOADED` is a parameter `bound` with `bound >= 2`. With 1, a split of two values transfers `len - 1` values with `len` 0, which wraps `size_t`.
- LibSort.MergeSortedFiles requires both runs non-empty. An empty file counts as 1 number, and the merge would then print an uninitialised `int`.
- LibUtil.MicrosecondsOf uses unbounded integers. The 64-bit overflow of `tv_sec * 1000000` is not modelled; it happens only after about 584,000 years.
- SplitProps.SortFileWithinTwoBounds: the as-written `sort_file` is proved exact only up to 2·bound values.
  - It is proved sorted for all inputs (`SplitProps.SortFileSorted`).
  - It is proved drawn from its input for all inputs (`SplitProps.SplitRunDrawsFrom`).
  - Deeper recursion is not exact, because of the first finding.
- Flag bits and error codes are abstract values:
  - `UFS_CREATE`, `UFS_READ_ONLY`, `UFS_WRITE_ONLY` and `UFS_READ_WRITE` are a `set<Flag>`;
  - `ufs_errno` is the field `error` of `UserFs.FileSystem`;
  - `userfs.h` is not part of this model.
- File blocks are one flat byte sequence of whole 512-byte blocks, not a linked list. The `prev`, `next` and `last_block` pointers are left out. So is the defensive NULL-`next` branch of `ufs_read`, which the block-count invariant makes unreachable.
- UserFs.FileSystem.Delete frees an unreferenced file directly, where the source marks it first. The mark is invisible once the file is freed.
- `file_descriptor_count` counts descriptors ever created and is never lowered by `ufs_close`. The model keeps it that way, so the table doubles every time the count reaches the capacity.
- UserFs.FileSystem.Read, UfsBlocks.ReadPiece and UfsBlocks.ReadBlocks use the corrected cursor of the third finding, as the rest of the model does: when a read stops at the end of the file exactly on a block boundary they move `cur_block` to the next block, where the source breaks at `Assignment_3/userfs.c:250` first and leaves it behind. `UfsSpec.ReadCursorAsWritten` keeps the source's behaviour.

## Findings

| source | as written | input that shows it | evidently intended | confidence | as-written member | corrected member |
|---|---|---|---|---|---|---|
| Assignment_1/src/libsort.c:224 | the left half holds `mid - start + 1` values but recurses as `split(left, start, mid)`, which sorts only `mid - start`; the merge then reads one value past that output and repeats its last value | `[5, 3, 1, 4, 2]` with bound 2 sorts to `[2, 3, 4, 5, 5]` | recurse on `start, mid + 1`, so that every level sorts its whole segment | high (proved on the model; not executed) | SplitProps.SplitLosesValue | SplitProps.SortFileFixedSorts |
| Assignment_1/src/libsort.c:246-258 | `count_numbers_in_file` counts the end of the file as a number, so an empty file counts as 1; `quick_sort_prepare` then sorts one `calloc`-zeroed value | an empty input file sorts to `[0]` | an empty file gives an empty run | high (proved on the model; not executed) | SplitProps.EmptyFileSortsToZero | SplitProps.SortFileFixed |
| Assignment_3/userfs.c:250-256 | when `ufs_read` stops at the end of the file exactly on a block boundary, it breaks before moving `cur_block` to the next block, so `cur_block` no longer matches the offset | a 512-byte file read whole leaves the offset at 512 with `cur_block` 0; a write then lands on byte 0 instead of byte 512 | `cur_block` is always `offset / 512` | high (proved on the model; not executed) | UfsSpec.ReadToBlockEndLeavesCursor | UfsSpec.ReadCursorKeepsBlock |
