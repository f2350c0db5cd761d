# onegin line sorter, modelled in Dafny

onegin reads a text file into one buffer. `cntlines` and `splitbuf` scan that buffer as a NUL-terminated string, although `getin` supplies no terminator (see "## Left out"). onegin does three things with the buffer:

- It counts the newline-terminated lines (`cntlines`).
- It cuts the buffer in place into C strings: each newline is overwritten with NUL, and the start of every line goes into the array `lineptr` (`splitbuf`).
- It sorts those lines in `strcmp` order. The main path uses an in-place quicksort (`qsortstr`, with the Lomuto partition `part` and the exchange `swap`). A bubble sort (`bsortstr`) is a second sort with the same contract; nothing in onegin.c calls it, since `main` sorts with `qsortstr` only (onegin.c:41).

The model keeps the program's shape:

- Each C function is a Dafny method over arrays, with the loops of the source and their invariants.
- Each method is proved against specification functions and predicates. Lemmas state what those promise.

It is split into four modules:

- `StrOrder` (`strorder.dfy`) models C's `strcmp` as a pure function over byte strings (section 7.24.4.2 of ISO C11):
  - bytes compare as `unsigned char`;
  - the scan stops at the first NUL;
  - the answer is the difference of the first differing bytes.

  Lemmas show that it is a total preorder. On NUL-free lines it is exactly lexicographic order, where the first differing byte decides and a proper prefix sorts first.
- `SortSpec` (`sortspec.dfy`) states what sorting means:
  - `SortedBetween` is non-decreasing `strcmp` order on an inclusive range.
  - `PermutedWithin` means the same multiset of lines, with every cell outside the range unchanged.

  It also holds the step lemmas behind the partition scan, the quicksort combine step and the bubble-sort passes. It proves that two sorted arrangements of the same NUL-free lines are identical as sequences of line values, so the two sorts agree on the lines they produce. The lines `splitbuf` records are NUL-free, as `SplitLinesRead` proves.
- `LineSort` (`linesort.dfy`) holds `Swap`, `Part`, `QSortStr` and `BSortStr`. Each runs on an `array<Line>` whose cells hold the lines the C `char *` cells point at.
- `LineSplit` (`linesplit.dfy`) holds `CntLines` and `SplitBuf`, which run on the byte buffer. A `char *` into the buffer is its offset, so `lineptr` is an `array<nat>`. The specification side is:
  - `NlPositions`: the newline offsets of the text;
  - `LineStart`: where line `k` begins;
  - `Segment`: line `k`'s bytes;
  - `Blank`: the buffer with the text's newlines overwritten.

## Model

| member | source | states |
|---|---|---|
| StrOrder.StrCmp | onegin.c:127 | `strcmp(a, b)`: compares unsigned bytes up to the first NUL or the first difference; the answer is a byte difference, between -255 and 255 |
| StrOrder.StrCmpReflexive | onegin.c:148 | a line compares equal to itself |
| StrOrder.StrCmpAntisymmetric | onegin.c:127 | swapping the operands flips the sign: `strcmp(a,b) > 0` is exactly `strcmp(b,a) < 0`, and `strcmp(a,b) == 0` is exactly `strcmp(b,a) == 0` |
| StrOrder.StrCmpTransitive | onegin.c:148 | "not greater" is transitive, so `strcmp` is a total preorder on all byte strings |
| StrOrder.LexLessTail | onegin.c:122 | a shared first byte leaves lexicographic order to the rest of the two lines |
| StrOrder.StrCmpIsLexicographic | onegin.c:122 | on NUL-free lines, `strcmp` is negative iff the first line is lexicographically smaller, zero iff the lines are equal, and positive iff the second is smaller |
| SortSpec.AdjacentSortedIsSorted | onegin.c:125-128 | the neighbouring-pairs form of sortedness, the form a bubble-sort pass checks with `strcmp(a[j], a[j+1])`, implies the all-pairs form `SortedBetween` |
| SortSpec.MultisetThreePieces | onegin.c:133-154 | a sequence's multiset is the sum of the multisets of a prefix, a middle range and a suffix |
| SortSpec.RangePermutation | onegin.c:133-154 | moving cells only within `[lo..hi]` keeps that range's multiset of lines |
| SortSpec.PermutedWithinTrans | onegin.c:137-139 | rearrangements within sub-ranges compose into a rearrangement of the enclosing range |
| SortSpec.RangeKeepsBound | onegin.c:138-139 | sorting one side of the pivot keeps every line of that side strictly below (or not below) the pivot |
| SortSpec.JoinAroundPivot | onegin.c:137-139 | a sorted low part strictly below the pivot, then the pivot, then a sorted high part not below it, make a sorted range |
| SortSpec.QSortCombine | onegin.c:133-140 | partitioning followed by sorting the low part and then the high part leaves `[left..right]` sorted |
| SortSpec.SortedHeadLeast | onegin.c:122-140 | the first cell of a sorted sequence holds a least line |
| SortSpec.SortedTail | onegin.c:122-140 | dropping the first cell of a sorted sequence keeps it sorted |
| SortSpec.MultisetTail | onegin.c:122-140 | dropping the first cell removes one occurrence of its line from the multiset |
| SortSpec.SortedHeadsEqual | onegin.c:122-140 | two sorted arrangements of the same NUL-free lines start with the same line |
| SortSpec.SortedPermutationUnique | onegin.c:122-140 | two sorted arrangements of the same NUL-free lines are equal as sequences of line values, so `qsortstr` and `bsortstr` leave the array holding the same lines in the same order, and re-sorting does not change that sequence of lines |
| SortSpec.ScanStep | onegin.c:147-151 | one iteration of `part`'s scan keeps its invariant: `a[left..i]` strictly below the pivot, `a[i+1..j-1]` not below it, the pivot still at `a[right]`, and the range only rearranged |
| SortSpec.ScanFinish | onegin.c:152-153 | the final swap puts the pivot at `i+1`, between the two parts |
| SortSpec.BubbleStep | onegin.c:127-128 | one compare-and-swap step leaves the pair in order and only exchanges the two cells |
| SortSpec.BubbleStepInTail | onegin.c:126-128 | a step inside the already sorted tail finds its pair in order and changes nothing |
| SortSpec.BubbleStepInFront | onegin.c:126-128 | a step in front of the sorted tail carries the greatest line seen so far one cell on |
| SortSpec.BubbleStepKeeps | onegin.c:126-128 | each step of a pass keeps the pass invariant and the rearrangement of `a[0..n-1]` |
| SortSpec.PassStart | onegin.c:125-126 | a new pass starts with its invariant holding |
| SortSpec.PassComplete | onegin.c:125-128 | a full pass adds one more greatest line to the sorted tail |
| SortSpec.PassesSort | onegin.c:123-129 | after `n-1` passes `a[0..n-1]` is sorted |
| LineSort.Swap | onegin.c:157-162 | `a[i]` and `a[j]` are exchanged and every other cell keeps its line |
| LineSort.Part | onegin.c:143-154 | returns `p` in `[left..right]` with `a[p]` the original `a[right]`; cells `left..p-1` are strictly below it and cells `p+1..right` are not below it; the range is only rearranged, and cells outside it are untouched |
| LineSort.QSortStr | onegin.c:133-140 | `a[left..right]` ends sorted in `strcmp` order and only rearranged, and cells outside it are untouched; with `left >= right` the array is unchanged |
| LineSort.BSortStr | onegin.c:123-129 | `a[0..n-1]` ends sorted in `strcmp` order and only rearranged, and the rest of the array is untouched |
| LineSplit.StrLen | onegin.c:100 | the scan stops at the first NUL: the result is an offset holding NUL with no NUL before it |
| LineSplit.StrLenAt | onegin.c:100 | the first NUL is the only NUL with none before it |
| LineSplit.NlPositions | onegin.c:113-117 | the offsets at which `splitbuf` meets a newline, each one the offset of a newline of the text |
| LineSplit.NlPositionsCount | onegin.c:97-104 | there are exactly as many newline offsets as `cntlines` counts newlines |
| LineSplit.NlPositionsSnoc | onegin.c:113-118 | scanning one more byte adds its offset exactly when it is a newline |
| LineSplit.NlPositionsIncreasing | onegin.c:113-118 | lines are recorded in the order they occur: the newline offsets strictly increase |
| LineSplit.NlPositionsComplete | onegin.c:113-118 | every newline of the text is listed |
| LineSplit.PrefixCount | onegin.c:100-102 | a prefix of the text holds no more newlines than the whole text |
| LineSplit.CntLines | onegin.c:97-104 | returns exactly the number of newline bytes before the first NUL |
| LineSplit.RoomForLine | onegin.c:38-40 | a newline of the text has fewer newlines before it than the text holds in all, so `lineptr`, sized by `cntlines`, has a free cell for its line |
| LineSplit.SplitRoom | onegin.c:113-116 | while scanning the text, a newline always finds `lineptr[j]` within bounds |
| LineSplit.LineStartSnoc | onegin.c:116-117 | a recorded line start does not move when the scan reads another byte |
| LineSplit.SplitStep | onegin.c:113-118 | one byte of `splitbuf`'s scan keeps its invariant: newlines read so far are NUL, other bytes unchanged, `lineptr[0..j-1]` hold the line starts and later cells are untouched, and `beg` is the open line's start |
| LineSplit.SplitDone | onegin.c:113-120 | when the scan reaches the NUL, the whole text is blanked and all of its lines are recorded |
| LineSplit.SplitBuf | onegin.c:108-120 | writes exactly `cntlines(buf)` entries of `lineptr`, entry `k` the start of line `k`, and leaves the later entries alone; the buffer becomes the text with its newlines overwritten by NUL |
| LineSplit.BlankChangesOnlyNewlines | onegin.c:114-115 | a byte of the buffer changes exactly when it is a newline of the text, and then becomes NUL; all other bytes keep their value |
| LineSplit.SegmentNoNewline | onegin.c:116-117 | no byte between a line's start and its closing newline is a newline |
| LineSplit.SegmentEnd | onegin.c:116-117 | line `k` ends at its own newline, which is at or before the last newline |
| LineSplit.SplitLinesRead | onegin.c:108-120 | after `splitbuf`, the C string at entry `k` reads exactly line `k`: no newline, no NUL, ending at its newline; bytes after the last newline belong to no entry |
| LineSplit.JoinedLines | onegin.c:108-120 | the recorded lines, each followed by its newline, re-join into the text up to the last newline: no byte is lost or invented |

## Left out

- `main`, `getin` and `getfsize` (onegin.c:20-94) are not part of this model. That covers:
  - opening and closing the file;
  - `fstat` and the regular-file check;
  - `fread`, `calloc` and `free`;
  - `perror` and `exit`;
  - printing the sorted lines.

  It is I/O and process plumbing. The call sequence of `main` (count, allocate `nlines` cells, split, `qsortstr(lineptr, 0, nlines-1)`) shows in the preconditions: `SplitBuf` asks for at least `cntlines` cells, and `QSortStr` accepts the empty call `(0, -1)`.
- `getin` allocates exactly the file size, so the buffer that `cntlines` and `splitbuf` scan has no room for a terminating NUL. The model does not reproduce this overrun. `CntLines` and `SplitBuf` require a NUL in the buffer.
- Pointers and C memory layout are not modelled. In the sorts a `char *` cell is the line it points at, a `seq<Byte>` value. In `splitbuf` a cell is an offset into the buffer. The sorts move these values exactly as the C code moves the pointers. Nothing in the sort path depends on pointer identity.
- StrOrder.StrCmp: only the sign of `strcmp` is specified by ISO C11 and used by the code. The byte difference is one valid choice. Only `StrCmp`'s own bound of -255..255 mentions the magnitude; every lemma about the order, `StrCmpAntisymmetric` included, states signs only.
- LineSplit.CntLines: the counter `cnt` and the scan index `i` are C `int`s (onegin.c:99-100). The model uses unbounded integers, so texts of INT_MAX (2^31-1) bytes or more are not modelled: index and counter overflow are left out.
- LineSplit.SplitBuf: the scan index `i` and the `lineptr` index `j` are C `int`s (onegin.c:111-113). The model uses unbounded integers for `i`, `j` and the offset `beg`, so texts of INT_MAX bytes or more are not modelled: index overflow is left out.
- The C `char` that `splitbuf` reads may be signed. That does not affect its tests against `'\n'` and `0`, so bytes are modelled as `0..255`.
- Running-time bounds of the two sorts are not stated. Termination is proved: `QSortStr` decreases `right - left`, and the loops have bounded indices.
- `splitbuf` records only newline-terminated segments, so an unterminated last segment is not a line. `SplitLinesRead` proves that bytes after the last newline belong to no recorded line.
- The order of pointers to equal lines is not modelled, because a cell of the sorted array is a line value, not a pointer. `qsortstr` is not stable: on "a\na\n" its final swap exchanges the two pointers to "a". `bsortstr` is stable, since it swaps only on `strcmp > 0`. The two sorts therefore agree on the sequence of lines they produce, but not necessarily on which pointer sits in which cell.
