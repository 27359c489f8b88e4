# Position-code sorting engines

This project models the sorting library of a small C++ benchmark and proves what it does. The library sorts
arrays of position codes (`Poscode`, a string key, usually six characters) with three engines:

- `quick_sort`: median-of-three pivot, Lomuto partition. The loop recurses into the smaller side and iterates on
  the larger side.
- `merge_sort`: top-down, with one shared buffer. Ties take the left run.
- `radix_sort`: six least-significant-character counting passes. They alternate between the caller's array and a
  scratch buffer. Each pass sends a character to one of 36 buckets through a 256-entry table (`CharMapper`) and
  threads the keys of each bucket on an `IndexLinkedList`.

Two helpers of the benchmark driver are modelled as well: `joinPath` and the `isSorted` validator.

The model follows the code's own form:

- The key is an immutable datatype with a bounds-checked accessor.
- The key order is a lexicographic order on strings, defined here and proved to be a strict total order.
  Dafny's own `<` on sequences means "proper prefix".
- `CharMapper` and `IndexLinkedList` are classes. The list keeps its nodes in an arena of `(index, next)` slots.
- Every engine is an imperative method on arrays:
  - quicksort is proved to leave its range `Sorted` and a permutation (equal multisets) of what it held, with
    the rest of the array unchanged;
  - mergesort is proved against the specification functions `MergeFrom` and `MergeSortOf` on sequences;
  - one counting pass is proved against `Grouped` (the stable bucket grouping), and the radix passes against
    `Passes`.
- Separate lemmas prove what those functions promise: a permutation, sorted in the right order, and stable.

The engines do not all compute the same thing. Quicksort and mergesort both sort in byte order. A sorted
permutation of a multiset of keys is unique, so the two always give the same array (`KeyOrder.SortedUnique`).

Radix sort orders by bucket index, not by byte value. Upper and lower case share a bucket, and every character
other than a digit or a letter joins `'0'` in bucket 0. The model proves two sides of this:

- Radix output equals mergesort's when every key is six characters from `[0-9A-Z]` alone, or from `[0-9a-z]` alone
  (`RadixSpec.RadixAgrees`).
- Radix output differs from mergesort's for `["a00000", "B00000"]` (`RadixSpec.MixedCaseDisagrees`) and for
  `["000000", "-00000"]` (`RadixSpec.OtherCharacterDisagrees`).

So the three engines agree on fixed-length keys only when the keys are single-case alphanumeric. The model
follows the code: it keeps the shared case buckets and the silent bucket 0.

Nothing here is random or clocked. Reading the key files and timing the engines are left out (see below).

## Model

| member | source | states |
|---|---|---|
| Poscodes.EmptyCode | cpp/src/poscode.cpp:5 | the default key has empty data, and every character access fails |
| Poscodes.MakeCode | cpp/src/poscode.cpp:7 | the string constructor keeps its argument verbatim: `getData` returns it, and `getValue(i)` is its `i`-th character or out-of-range |
| Poscodes.GetValue | cpp/src/poscode.cpp:9-14 | succeeds exactly when `i` is below the length and then returns character `i`; otherwise an out-of-range error (its payload is the model's own, see below) |
| Poscodes.GetData | cpp/src/poscode.cpp:16 | returns the stored string, which holds exactly the characters `getValue` hands out: `getValue(i)` is its `i`-th character below its length and out-of-range from there on |
| KeyOrder.StringLessIff | cpp/src/utils.cpp:13-15 | the recursive comparison used for `std::string <` holds iff there is a first position where the strings differ and the left one is smaller there or has ended |
| KeyOrder.StringLessWitness | cpp/src/utils.cpp:13-15 | a smaller string has such a first difference |
| KeyOrder.WitnessStringLess | cpp/src/utils.cpp:13-15 | a first difference in the left string's favour makes it smaller |
| KeyOrder.StringLessIrreflexive | cpp/src/utils.cpp:13-15 | no string is less than itself |
| KeyOrder.StringLessTransitive | cpp/src/utils.cpp:13-15 | the string order is transitive |
| KeyOrder.StringLessTrichotomy | cpp/src/utils.cpp:13-15 | any two strings are equal or ordered one way, never both ways |
| KeyOrder.LessThan | cpp/src/utils.cpp:13-15 | `lessThan` is `StringLess` on the two keys' data; it never holds between a key and itself |
| KeyOrder.LessThanTotal | cpp/src/utils.cpp:13-15 | of two keys, exactly one is less than the other unless they are equal: `lessThan` is a strict total order |
| KeyOrder.LessEqual | cpp/src/utils.cpp:17-19 | `lessEqual` (`<=` on the strings) holds iff `lessThan` holds or the keys are equal |
| KeyOrder.LessEqualTotal | cpp/src/utils.cpp:17-19 | `lessEqual` is total |
| KeyOrder.LessEqualAntisymmetric | cpp/src/utils.cpp:17-19 | keys that are `lessEqual` both ways are the same key |
| KeyOrder.LessEqualTransitive | cpp/src/utils.cpp:17-19 | `lessEqual` is transitive |
| KeyOrder.LessThanLessEqual | cpp/src/utils.cpp:13-19 | `lessThan` followed by `lessEqual` gives `lessThan` |
| KeyOrder.NotLessThan | cpp/src/utils.cpp:94 | not less than the pivot means at least the pivot |
| KeyOrder.AdjacentSorted | cpp/test.cpp:44-49 | adjacent pairs in `lessEqual` order make the whole sequence sorted |
| KeyOrder.SortedUnique | cpp/src/utils.cpp:185-198 | two sorted sequences with the same keys are equal, so quicksort and mergesort give the same result |
| KeyOrder.SortedCons | cpp/src/utils.cpp:128-142 | a key at most every key of a sorted sequence can be put in front of it |
| KeyOrder.SortedDrop | cpp/src/utils.cpp:128-142 | every suffix of a sorted sequence is sorted |
| KeyOrder.SortedHead | cpp/src/utils.cpp:128-142 | the head of a sorted sequence is at most each of its keys |
| KeyOrder.SortedTail | cpp/src/utils.cpp:128-142 | dropping the head keeps a sequence sorted |
| KeyOrder.SortedPair | cpp/src/utils.cpp:17-19 | two keys in `lessEqual` order form a sorted sequence |
| KeyOrder.SortedTriple | cpp/src/utils.cpp:17-19 | three keys in `lessEqual` order form a sorted sequence |
| CharMapping.ByteOf | cpp/src/utils.cpp:35 | `static_cast<unsigned char>`: a value below 256, and the code itself for one-byte characters |
| CharMapping.Table | cpp/src/utils.cpp:23-32 | the table has 256 entries, entry `k` being what the constructor writes at byte `k` |
| CharMapping.CharMapper.constructor | cpp/src/utils.cpp:23-32 | after the fill with 0 and the two loops, the table is exactly `Table()` |
| CharMapping.CharMapper.BucketIndex | cpp/src/utils.cpp:34-38 | `bucketIndex` looks the character's byte up in the table and gives a bucket below `bucketCount()` |
| CharMapping.DigitBuckets | cpp/src/utils.cpp:25-27 | `'0'..'9'` go to buckets 0..9 in order |
| CharMapping.LetterBuckets | cpp/src/utils.cpp:28-31 | the `i`-th upper-case and the `i`-th lower-case letter both go to bucket `10 + i` |
| CharMapping.OtherBuckets | cpp/src/utils.cpp:24 | any other one-byte character keeps the fill value 0, the bucket of `'0'` |
| CharMapping.BucketBound | cpp/src/utils.cpp:38 | every bucket is below 36 |
| CharMapping.BucketsOnto | cpp/src/utils.cpp:23-38 | every character's bucket is below 36, and each of the 36 buckets is the bucket of some character |
| CharMapping.CharMapper.BucketCount | cpp/src/utils.cpp:38 | `bucketCount()` is 36: every bucket is below it, and every bucket below it is used by some character |
| IndexLists.IndicesAlong | cpp/src/utils.cpp:64-65 | a walk along a chain of slots visits the stored indices in chain order |
| IndexLists.LinkedFrame | cpp/src/utils.cpp:57-59 | writing a node slot that is not on a list leaves that list and its indices as they were |
| IndexLists.IndexLinkedList.constructor | cpp/src/utils.cpp:163 | a new list has null head and tail and is empty |
| IndexLists.IndexLinkedList.PushBack | cpp/src/utils.cpp:165-176 | a null node changes nothing; otherwise the node is appended, so the index sequence becomes the old one plus the node's index; only the old tail's link is written |
| IndexLists.IndexLinkedList.Head | cpp/src/utils.cpp:178 | the head is null exactly when the list is empty, and otherwise the first node on it |
| IndexLists.IndexLinkedList.Clear | cpp/src/utils.cpp:180-183 | the list is empty afterwards, with null head and tail |
| Grouping.RunSnoc | cpp/src/utils.cpp:59 | appending a key extends its own bucket's run by that key and no other run |
| Grouping.IndexRunBelow | cpp/src/utils.cpp:53-60 | bucket `b`'s list after `i` keys holds only indices below `i` whose key is in bucket `b` |
| Grouping.IndexRunKeys | cpp/src/utils.cpp:53-60 | the keys at those indices are the run of bucket `b` among the first `i` keys |
| Grouping.ChainKeys | cpp/src/utils.cpp:64-65 | walking a full bucket list and reading `input[node->index]` yields that bucket's run |
| Grouping.IndexRunAscending | cpp/src/utils.cpp:53-60 | a bucket list holds its indices in ascending (input) order |
| Grouping.IndexRunComplete | cpp/src/utils.cpp:53-60 | every earlier key of bucket `b` is on bucket `b`'s list |
| Grouping.RunInBucket | cpp/src/utils.cpp:62-68 | a run holds only keys of its own bucket |
| Grouping.RunSubsequence | cpp/src/utils.cpp:62-68 | a run is a subsequence of the input, in input order |
| Grouping.RunAppend | cpp/src/utils.cpp:62-68 | the run of a concatenation is the concatenation of the runs |
| Grouping.RunOfBucket | cpp/src/utils.cpp:62-68 | for keys all in one bucket, its run is everything and every other run is empty |
| Grouping.NoRunAbove | cpp/src/utils.cpp:63 | buckets at or above the bucket count have empty runs |
| Grouping.GroupedBelow | cpp/src/utils.cpp:62-68 | the output after buckets `0..b-1` holds only keys of those buckets |
| Grouping.GroupedSnocAbove | cpp/src/utils.cpp:62-68 | a key of a later bucket does not change the output so far |
| Grouping.GroupedSnocBelow | cpp/src/utils.cpp:62-68 | a key of an earlier bucket adds exactly one copy of itself to the output so far |
| Grouping.SnocLastBucket | cpp/src/utils.cpp:62-68 | the same, for a key of the last bucket drained |
| Grouping.SnocLastGrouped | cpp/src/utils.cpp:62-68 | a key of the last bucket drained lands at the end of the output |
| Grouping.SnocEarlierBucket | cpp/src/utils.cpp:62-68 | the same multiset step for a key of a strictly earlier bucket |
| Grouping.AddedFirst | cpp/src/utils.cpp:62-68 | one more key in a prefix is one more key in the whole |
| Grouping.GroupedPermutes | cpp/src/utils.cpp:44-69 | a counting pass over keys whose buckets are in range is a permutation |
| Grouping.GroupedRun | cpp/src/utils.cpp:62-68 | after draining buckets `0..b-1`, bucket `c`'s keys in the output are its run when `c < b`, none otherwise |
| Grouping.GroupedStable | cpp/src/utils.cpp:44-69 | a counting pass is stable: each bucket's keys come out in input order |
| Grouping.SameBucketGrouped | cpp/src/utils.cpp:44-69 | keys all in one bucket come out unchanged |
| Grouping.FilterAppend | cpp/src/utils.cpp:62-68 | selecting from a concatenation is concatenating the selections |
| Grouping.FilterRun | cpp/src/utils.cpp:62-68 | selecting keys of bucket `b` from bucket `b`'s run is selecting them from the input |
| Grouping.FilterGrouped | cpp/src/utils.cpp:44-69 | any selection of keys of one bucket comes out of a pass in input order |
| Grouping.SortedByConcat | cpp/src/utils.cpp:62-68 | two ordered pieces with every key of the first before every key of the second form an ordered whole |
| Grouping.RunSorted | cpp/src/utils.cpp:62-68 | a run of an ordered sequence is ordered |
| Grouping.GroupedSorted | cpp/src/utils.cpp:44-69 | a pass over an input ordered by `le` orders by bucket first and by `le` within a bucket |
| Grouping.GroupedPrefix | cpp/src/utils.cpp:62-68 | the output after fewer buckets is a prefix of the output after more |
| LsdPasses.PassesPermute | cpp/src/utils.cpp:212-215 | any number of passes permutes the input |
| LsdPasses.PassStepPermutes | cpp/src/utils.cpp:212-215 | one more pass in front keeps the passes a permutation |
| LsdPasses.PassSorts | cpp/src/utils.cpp:212-215 | a pass at position `q` turns order from position `q + 1` on into order from `q` on |
| LsdPasses.PassesSorted | cpp/src/utils.cpp:212-215 | the passes at `p - 1` down to 0 extend order from position `p` to order from position 0 |
| LsdPasses.PassStepSorted | cpp/src/utils.cpp:212-215 | the same step with one pass unrolled |
| LsdPasses.LsdSorts | cpp/src/utils.cpp:212-215 | `len` passes order by all `len` digits, whatever the input |
| LsdPasses.PassesStable | cpp/src/utils.cpp:212-215 | keys that agree on the digits passed over come out in input order |
| LsdPasses.PassStepStable | cpp/src/utils.cpp:212-215 | the same step with one pass unrolled |
| LsdPasses.SharedBucketPasses | cpp/src/utils.cpp:212-215 | keys sharing one bucket at every digit pass through unchanged |
| LsdPasses.SharedBucketStep | cpp/src/utils.cpp:212-215 | the same step with one pass unrolled |
| RadixSpec.KeyCheck | cpp/src/utils.cpp:53-55 | the first loop of a pass finishes exactly when every key has a character at `position` |
| RadixSpec.KeyCheckFirstShort | cpp/src/poscode.cpp:10-11 | a failed pass fails at the first key too short, with that key's length in the error |
| RadixSpec.KeyCheckPrefix | cpp/src/utils.cpp:53-55 | a failure among the first `i` keys is the failure of the whole pass |
| RadixSpec.LongKeysPermuted | cpp/src/utils.cpp:212-215 | rearranging keys keeps them long enough, so only the first pass (position 5) can fail |
| RadixSpec.BucketKeysInRange | cpp/src/utils.cpp:34-38 | every digit of every key is below 36 |
| RadixSpec.CountingPassPermutes | cpp/src/utils.cpp:44-69 | `countingSortByPosition` writes a permutation of its input |
| RadixSpec.CountingPassOrdered | cpp/src/utils.cpp:44-69 | its output is non-decreasing by the bucket of the character at `position` |
| RadixSpec.CountingPassStable | cpp/src/utils.cpp:44-69 | keys of one bucket keep their input order |
| RadixSpec.CountingPassLength | cpp/src/utils.cpp:44-69 | it writes exactly `n` keys |
| RadixSpec.RadixStep | cpp/src/utils.cpp:212-215 | the radix loop is one counting pass at the current position followed by the rest |
| RadixSpec.RadixSorted | cpp/src/utils.cpp:200-222 | `radix_sort` yields a permutation ordered lexicographically by the buckets of characters 0..5 |
| RadixSpec.RadixStable | cpp/src/utils.cpp:200-222 | `radix_sort` is stable: keys with the same six buckets keep their input order |
| RadixSpec.CodeCharBuckets | cpp/src/utils.cpp:23-32 | among digits and one case of letters, bucket order and equality are byte order and equality |
| RadixSpec.BucketLeSuffix | cpp/src/utils.cpp:200-222 | for single-case alphanumeric keys, bucket order from position `q` is byte order on the suffixes |
| RadixSpec.BucketLeIsLessEqual | cpp/src/utils.cpp:200-222 | for such keys, bucket order is `lessEqual` |
| RadixSpec.RadixAgrees | cpp/src/utils.cpp:192-222 | on such keys radix output is sorted in byte order and equals mergesort's |
| RadixSpec.RadixIsSortedArrangement | cpp/src/utils.cpp:185-222 | on such keys radix output is the sorted arrangement every engine produces |
| RadixSpec.RadixExample | cpp/src/utils.cpp:200-222 | `["B2C001","A1B002","B2C000"]` sorts to `["A1B002","B2C000","B2C001"]` |
| RadixSpec.RadixPair | cpp/src/utils.cpp:200-222 | two keys in strict bucket order stay where they are |
| RadixSpec.MergePair | cpp/src/utils.cpp:192-198 | mergesort swaps two keys that are out of byte order |
| RadixSpec.MixedCaseDisagrees | cpp/src/utils.cpp:29-30 | `["a00000","B00000"]`: radix keeps the order, mergesort swaps it |
| RadixSpec.ZeroBucketKeys | cpp/src/utils.cpp:24 | keys whose every character is in bucket 0 come out unchanged |
| RadixSpec.OtherCharacterDisagrees | cpp/src/utils.cpp:24 | `["000000","-00000"]`: radix keeps the order, mergesort swaps it |
| RadixSortEngine.AddNode | cpp/src/utils.cpp:57-59 | clearing key `i`'s node and pushing it onto its bucket extends the bucket invariant to `i + 1` keys |
| RadixSortEngine.LinkNode | cpp/src/utils.cpp:59 | the push keeps every other bucket list intact and extends the key's own |
| RadixSortEngine.CopyChain | cpp/src/utils.cpp:64-66 | walking a list copies its run to `output[start..]` and writes nothing else |
| RadixSortEngine.CollectList | cpp/src/utils.cpp:64-66 | walking bucket `b` extends the output from buckets `0..b-1` to buckets `0..b` |
| RadixSortEngine.CollectBucket | cpp/src/utils.cpp:63-66 | the same, from inside the bucket loop |
| RadixSortEngine.FillBuckets | cpp/src/utils.cpp:53-60 | the first loop either stops at the first short key with its error or leaves every key threaded on its bucket's list |
| RadixSortEngine.DrainOne | cpp/src/utils.cpp:63-68 | one turn of the second loop: drain bucket `b` into the output, then clear it |
| RadixSortEngine.DrainBuckets | cpp/src/utils.cpp:62-68 | the second loop writes the bucket grouping into `output[0..n)` and nothing past it |
| RadixSortEngine.CountingSortByPosition | cpp/src/utils.cpp:44-69 | `countingSortByPosition`: fails with the first short key's error and writes nothing, or writes the counting pass into `output[0..n)`; `output` past `n` is untouched |
| RadixSortEngine.RadixPass | cpp/src/utils.cpp:213-214 | one turn of the pass loop: the counting pass at `pos - 1` from source to destination fails exactly as the key check says, otherwise the passes still to run from the source equal those from the destination, and keys long enough stay so |
| RadixSortEngine.LaterPasses | cpp/src/utils.cpp:212-221 | after the first pass, the other five cannot fail and finish in the caller's array, so the copy-back is dead |
| RadixSortEngine.RadixSort | cpp/src/utils.cpp:200-222 | `radix_sort`: a no-op below two keys; otherwise it fails, leaving the array as it was, exactly when some key is shorter than six; else `A[0..n)` becomes `RadixOf` of its old contents |
| QuickSortEngine.Swap | cpp/src/utils.cpp:75 | `std::swap` of two cells: exchanges them and keeps the multiset |
| QuickSortEngine.MedianOfThree | cpp/src/utils.cpp:71-85 | returns `low + (high-low)/2`, leaves `A[low] <= A[mid] <= A[high]`, and only permutes those three cells |
| QuickSortEngine.Partition | cpp/src/utils.cpp:87-101 | returns `p` in `[low, high]`; keys before `p` are less than `A[p]`, keys after `p` are not; the range is permuted and nothing outside it changes |
| QuickSortEngine.SettledMiddlePermuted | cpp/src/utils.cpp:104-119 | permuting the unsorted middle keeps the loop invariant (the sides outside `[low, high]` are sorted and bound the middle) |
| QuickSortEngine.SortedSlice | cpp/src/utils.cpp:103-120 | any two positions of a sorted slice are in order |
| QuickSortEngine.SettleLeft | cpp/src/utils.cpp:107-111 | once the left side is sorted, `low = pivotIndex + 1` keeps the invariant |
| QuickSortEngine.SettleRight | cpp/src/utils.cpp:112-117 | once the right side is sorted, `high = pivotIndex - 1` keeps the invariant |
| QuickSortEngine.SettledSorted | cpp/src/utils.cpp:104 | when the loop stops with at most one middle key, the whole range is sorted |
| QuickSortEngine.SplitKept | cpp/src/utils.cpp:105-117 | permuting each side of the pivot keeps the partition property |
| QuickSortEngine.SidesPermuted | cpp/src/utils.cpp:105-117 | permuting each side of the pivot permutes the range |
| QuickSortEngine.RoundKeeps | cpp/src/utils.cpp:105-117 | a partition round keeps the loop invariant and its split |
| QuickSortEngine.RoundLeft | cpp/src/utils.cpp:107-111 | sorting the smaller left side settles it |
| QuickSortEngine.RoundRight | cpp/src/utils.cpp:112-117 | sorting the right side settles it |
| QuickSortEngine.SortRound | cpp/src/utils.cpp:105-117 | one turn of the loop: recurse into the left side exactly when `pivotIndex > 0` and it is the smaller side, else into the right; the settled region grows on that side |
| QuickSortEngine.QuickSortRecursive | cpp/src/utils.cpp:103-120 | `A[low..high]` ends sorted and permuted; nothing outside it changes |
| QuickSortEngine.QuickSort | cpp/src/utils.cpp:185-190 | `quick_sort`: a no-op below two keys; otherwise `A[0..n)` becomes a sorted permutation of itself |
| MergeSortEngine.MergeFrom | cpp/src/utils.cpp:128-142 | the merge of what is left of the two runs has the length of both remainders |
| MergeSortEngine.MergeFromPermutes | cpp/src/utils.cpp:128-142 | the merge holds exactly the keys of both remainders |
| MergeSortEngine.MergePermutes | cpp/src/utils.cpp:128-142 | the merge of two runs holds exactly their keys |
| MergeSortEngine.LeftTaken | cpp/src/utils.cpp:128-134 | after `n` steps the left cursor has taken at most `n` keys of the left run, and the right cursor the rest |
| MergeSortEngine.WalkRest | cpp/src/utils.cpp:128-134 | after `n` steps, the rest of the merge is the merge of what both cursors have left |
| MergeSortEngine.MergeFromHead | cpp/src/utils.cpp:129-133 | the merge takes the left head when it is `lessEqual` the right head (ties go left), else the right head |
| MergeSortEngine.TakeStep | cpp/src/utils.cpp:129-133 | step `n` writes the `n`-th merged key and advances exactly the cursor it took from |
| MergeSortEngine.MergeFromDone | cpp/src/utils.cpp:136-142 | once a run is used up, the merge is the rest of the other |
| MergeSortEngine.WalkDone | cpp/src/utils.cpp:136-142 | after the first loop, the merge so far followed by both rests is the whole merge |
| MergeSortEngine.MergeHeads | cpp/src/utils.cpp:128-134 | the first loop writes the first `k - left` merged keys to `buffer[left..k)` and stops when a run is used up |
| MergeSortEngine.TakeHead | cpp/src/utils.cpp:129-133 | one turn of the first loop writes the next merged key and nothing else |
| MergeSortEngine.Drain | cpp/src/utils.cpp:136-142 | a draining loop copies the rest of its run to the buffer and writes nothing else |
| MergeSortEngine.Assemble | cpp/src/utils.cpp:128-142 | merged prefix, left rest and right rest together are the merge |
| MergeSortEngine.CopyBack | cpp/src/utils.cpp:144-146 | the copy-back loop sets `A[left..right]` from the buffer and changes nothing else |
| MergeSortEngine.MergeToBuffer | cpp/src/utils.cpp:124-142 | the three loops leave the merge in `buffer[left..right]` and the rest of the buffer alone |
| MergeSortEngine.MergeSections | cpp/src/utils.cpp:122-147 | `mergeSections`: `A[left..right]` becomes the merge of its two runs; nothing else in `A` changes, nor in the buffer outside that range |
| MergeSortEngine.MergeSortOf | cpp/src/utils.cpp:149-159 | sorting keeps the length |
| MergeSortEngine.MergeSortOfPermutes | cpp/src/utils.cpp:149-159 | mergesort is a permutation |
| MergeSortEngine.MergeFromSorted | cpp/src/utils.cpp:128-142 | merging two sorted runs gives a sorted result |
| MergeSortEngine.MergeSortOfSorted | cpp/src/utils.cpp:149-159 | mergesort gives a sorted result, whatever the input |
| MergeSortEngine.SortedIsMergeSortOf | cpp/src/utils.cpp:149-159 | any sorted permutation of the input is mergesort's result, so quicksort's result equals it |
| MergeSortEngine.MergeSortOfIdempotent | cpp/src/utils.cpp:149-159 | sorted input comes back unchanged, and sorting twice is sorting once |
| MergeSortEngine.MergeSortOfRange | cpp/src/utils.cpp:151-158 | a range longer than one key is split after `mid = left + (right-left)/2`, its halves sorted and merged |
| MergeSortEngine.HalvesRound | cpp/src/utils.cpp:156-157 | sorting the left half and then the right half splices both into the range |
| MergeSortEngine.MergedRound | cpp/src/utils.cpp:158 | merging the sorted halves splices the merge into the range |
| MergeSortEngine.MergeSortRecursive | cpp/src/utils.cpp:149-159 | `mergeSortRecursive`: `A[left..right]` becomes `MergeSortOf` of what it held; nothing else in `A` changes |
| MergeSortEngine.SortHalves | cpp/src/utils.cpp:156-157 | the two recursive calls leave both halves sorted in place |
| MergeSortEngine.MergeSort | cpp/src/utils.cpp:192-198 | `merge_sort`: a no-op below two keys; otherwise `A[0..n)` becomes a sorted permutation of itself, equal to `MergeSortOf` of it |
| TestHelpers.JoinPath | cpp/test.cpp:30-41 | an empty directory gives the file name; otherwise the directory, then exactly one separator (the directory's own final `/` or `\` if it has one, else an added `/`), then the file name; the result always ends with the file name |
| TestHelpers.JoinPathNormalised | cpp/test.cpp:35-40 | joining an empty name first, then the real one, gives the same path: no separator is doubled |
| TestHelpers.IsSorted | cpp/test.cpp:43-50 | `isSorted` is true exactly when the sequence is non-decreasing in byte order, so in particular for zero or one key |

## Left out

- `readCodes` and `deleteCodes` (cpp/src/utils.cpp:224-249): file input, error printing and raw `new[]`/`delete[]` are I/O and memory management.
- `computeAverage` and `computeStdDeviation`: floating-point statistics over timings.
- `main`, `printUsage` and the result records of cpp/test.cpp: argument parsing, `std::chrono` timing and console output.
- The `A == nullptr` guards: arrays are non-null references in Dafny.
- Pointer identity: `source`/`destination` are array references, and `source != a` after the loop is proved false.
- The headers cpp/include/utils.hpp and cpp/include/poscode.hpp hold only declarations. They give the shapes of `Node` (index 0, null successor) and of the signatures.
- The bound on quicksort's recursion depth (smaller side first) is a resource property. The loop and recursion keep the code's shape, but depth is not stated.
- The exception `getValue` throws is a `Result` error. `countingSortByPosition` and `radix_sort` return it as an `Outcome`, with the array unchanged. In the code the exception propagates, and it is raised before any write.
- Poscodes.GetValue: the C++ code throws `std::out_of_range` with a fixed message only. The index and length carried by `OutOfRange` are the model's own payload; the code reports neither.
- MergeSortEngine.MergeSort: stability is stated as "the result is the left-biased merge sort `MergeSortOf`", not as a separate order-of-equals lemma. Two keys equal under `lessEqual` both ways are the same value (`KeyOrder.LessEqualAntisymmetric`), so their relative order cannot be observed.
- IndexLists.IndexLinkedList: the nodes live in an arena of `(index, next)` slots, and a node pointer is its slot number. The list does not own them, in the model as in the code.
- CharMapping.CharMapper: the table is an immutable 256-entry sequence set once by the constructor. The constructor runs the fill loops on a local array and then stores its contents; the code fills its member array directly.
- RadixSortEngine: the 36 bucket lists are modelled as 36 distinct objects in a sequence, as a `std::vector` of lists is.
- RadixSpec.BucketAt: a key too short for `position` gets bucket 0. That value is never used, because the pass reports the error before grouping.
- Characters are compared by code point. For one-byte characters this is `std::char_traits<char>` unsigned byte order. Wider code points are outside what a `std::string` of bytes holds.
