# Parallel top-K record selection

The model covers the core of a tool that reads a very large stream of lines of the form
`"<record id> <record value>"` and reports the ids of the K records with the largest values.

- **Chunk reducer** (`RecordUtils.FindLargestRecordsInChunk`): scans one chunk of lines.
  - Each line is stripped and split on whitespace.
  - Lines with the wrong number of tokens or a non-integer token are skipped and counted as warnings.
  - The other lines become `Record`s, which are kept in a min-heap of at most K records: push while the heap is short, push-pop once it is full.
- **Partitioner** (`RecordUtils.Partition`): cuts the line stream into chunks of 10000 lines, with a shorter last chunk.
- **Reduction and merge**: every chunk is reduced (`RecordUtils.ReduceChunks`) and the partial results are concatenated (`RecordUtils.MergeResults`). `nlargest` then picks the K largest records by value (`TopK.NLargest`), and their ids are projected out (`RecordUtils.Ids`).
- **Record** (`RecordModel`): a pair of integers whose `<` and `==` compare values only, with the `__str__` rendering.

The heap is the class `Heap.MinHeap`. It follows the pure-Python `heapq.py` step by step. CPython normally runs the C accelerator `_heapq` instead, whose sift routines swap elements rather than move a hole; both make the same comparisons and leave the same list.

- `heappush` appends, then moves the new item up with `_siftdown`.
- `heappushpop` replaces the root only when the root is smaller than the new item, then calls `_siftup`. `_siftup` moves the hole down to a leaf and finishes with `_siftdown`.
- `nlargest(n, xs, key)` is modelled as a stable sort by value in descending order followed by the first `max(n, 0)` records. For `n >= 0` this is its documented equivalent `sorted(xs, key=key, reverse=True)[:n]`. For a negative `n`, `heapq.nlargest` returns `[]`, while that slice expression would drop only the last `-n` items; the model returns `[]` like `nlargest`.

The value-level reference is `TopK.TopValues(vs, k)`: the k largest of `vs` as a descending sequence. `TopK.Cap(topX)` is `max(0, topX)`, because a negative `top_x` behaves like 0 in the code. The main results are:

- After each line the heap holds exactly the values of `TopValues` of the valid lines read so far.
- Merging the chunks' partial tops in any arrival order gives the top of the whole input.
- The returned ids are those of a correct top-K selection of the valid records, in descending value order.

The process pool runs the chunk reductions sequentially in the model. `MergeOrderIrrelevant` and `MergedSelectionAnyOrder` prove that the order in which results arrive changes neither the selected values nor the correctness of the selection.

Two points about the edges of the core:

- `main.py:39-42` rejects `X <= 0` before calling the core. The core itself returns an empty list for such an `X`, and so does the model.
- An exception raised inside a worker would propagate through `chunk_result.result()` (`record_utils.py:97`). Nothing in the modelled code raises one, since `ValueError` is caught per line, so the model has no failure path.

## Model

| member | source | states |
|---|---|---|
| RecordModel.Less | record.py:14-21 | `__lt__`; its contract is LessByValueOnly, StrictWeakOrder and Trichotomy |
| RecordModel.Equal | record.py:23-30 | `__eq__`; its contract is EqualIgnoresId, StrictWeakOrder and EqualSubstitutes |
| RecordModel.ToString | record.py:32-36 | `__str__`; its contract is ToStringInjective |
| RecordModel.ConstructorStores | record.py:4-12 | a constructed record holds exactly the id and value it was given |
| RecordModel.LessByValueOnly | record.py:14-21 | `a < b` holds iff `a.value < b.value`; the ids play no role |
| RecordModel.EqualIgnoresId | record.py:23-30 | records with equal values are `==` even when their ids (and so the records) differ |
| RecordModel.StrictWeakOrder | record.py:14-30 | `<` is irreflexive and transitive, and `==` is an equivalence that holds exactly when neither record is `<` the other |
| RecordModel.Trichotomy | record.py:14-30 | for any two records exactly one of `a < b`, `a == b`, `b < a` holds |
| RecordModel.EqualSubstitutes | record.py:23-30 | records that are `==` can replace each other on either side of `<` |
| RecordModel.ToStringInjective | record.py:32-36 | two records with the same string representation have the same id and the same value |
| IntText.IntToString | record.py:36 | the decimal rendering inside the f-string; its contract is NatToStringDigits, IntToStringInjective and ParseIntRoundTrip |
| IntText.ParseInt | record_utils.py:36 | `int()` on one token; its contract is ParseIntRoundTrip |
| IntText.NatToStringDigits | record.py:36 | the decimal rendering of a natural is a digit string whose value is that natural |
| IntText.IntToStringInjective | record.py:36 | distinct integers render to distinct decimal strings |
| IntText.ParseIntRoundTrip | record_utils.py:36 | `int()` applied to the decimal rendering of any integer gives that integer back |
| LineParse.StripLeft | record_utils.py:30 | the result is empty or starts with a non-whitespace character; StripLeftMeaning gives the rest of its contract |
| LineParse.StripLeftMeaning | record_utils.py:30 | `lstrip` keeps a suffix of the line and everything it drops is whitespace, so the result is the line minus its leading whitespace |
| LineParse.StripRight | record_utils.py:30 | the result is empty or ends with a non-whitespace character; StripRightMeaning gives the rest of its contract |
| LineParse.StripRightMeaning | record_utils.py:30 | `rstrip` keeps a prefix of the line and everything it drops is whitespace, so the result is the line minus its trailing whitespace |
| LineParse.Strip | record_utils.py:30 | `strip()`; its contract is StripMeaning |
| LineParse.StripMeaning | record_utils.py:30 | `strip()` keeps a middle slice of the line that neither starts nor ends with whitespace, and drops only whitespace before and after it |
| LineParse.SplitFrom | record_utils.py:30 | every token is a non-empty run of non-whitespace characters |
| LineParse.Split | record_utils.py:30 | `split()`; its contract is SplitSpaced, SplitConcat and SplitJoin |
| LineParse.SplitSpaced | record_utils.py:30 | for any words with any whitespace before, after and between them (at least one character between neighbours), `split()` returns exactly those words in order |
| LineParse.SplitConcat | record_utils.py:30 | `split()` loses only whitespace: the tokens written back to back are the line's non-whitespace characters |
| LineParse.SplitJoin | record_utils.py:30 | splitting tokens joined by single spaces gives the tokens back |
| LineParse.SplitIgnoresStrip | record_utils.py:30 | stripping before splitting changes nothing |
| LineParse.ParseLineCharacterised | record_utils.py:30-37 | a line parses to a record iff it has exactly two tokens and both are integers, which become the id and the value |
| LineParse.ParseFormatRoundTrip | record_utils.py:30-37 | the line `"<id> <value>"` rendered from any record parses back to that record |
| LineParse.ParseLine | record_utils.py:30-49 | one line to a record or to a warning; its contract is ParseLineCharacterised and the lemmas below |
| LineParse.WrongTokenCountRejected | record_utils.py:30-33 | any line that does not split into exactly two tokens is rejected |
| LineParse.BadIdRejected | record_utils.py:35-49 | any two-token line whose first token `int()` refuses is rejected |
| LineParse.BadValueRejected | record_utils.py:35-49 | any two-token line whose second token `int()` refuses is rejected |
| LineParse.WellFormedAccepted | record_utils.py:30-37 | any id and value written with any whitespace around them and at least one whitespace character between them parse to the record with that id and value |
| LineParse.OneTokenExamples | test_record_utils.py:43-48 | the test lines `"102"` and `"    90"` are rejected |
| LineParse.BadIdExample | test_record_utils.py:45 | the test line `"ABC 80"` is rejected |
| LineParse.BadValueExample | test_record_utils.py:47 | the test line `"106 DE"` is rejected |
| LineParse.WellFormedExamples | test_record_utils.py:10-26 | the test lines `"101 50"` and `"101 -50"` parse to `Record(101, 50)` and `Record(101, -50)` |
| LineParse.ValidRecords | record_utils.py:29-49 | the records a chunk contributes; its contract is ValidRecordsSound, ValidRecordsComplete, ValidRecordsAppend and ValidRecordsAllWellFormed |
| LineParse.MalformedCount | record_utils.py:29-49 | the number of warnings a chunk prints; its contract is ValidRecordsCount |
| LineParse.ValidRecordsAppend | record_utils.py:29-49 | the valid records of concatenated line lists are the concatenation of their valid records |
| LineParse.ValidRecordsSound | record_utils.py:29-49 | every record kept comes from a line that parses to it |
| LineParse.ValidRecordsComplete | record_utils.py:29-49 | every line that parses contributes its record |
| LineParse.ValidRecordsCount | record_utils.py:31-33 | kept records plus warnings add up to the number of lines |
| LineParse.ValidRecordsAllWellFormed | record_utils.py:29-37 | when every line parses, the valid records are exactly the parsed records, in input order |
| LineParse.FormatLinesRoundTrip | record_utils.py:29-37 | reading the rendered lines of any record list produces that list again |
| TopK.InsertDesc | record_utils.py:100-101 | inserting a value adds exactly that value to the multiset |
| TopK.SortDesc | record_utils.py:100-101 | the reference sort is a permutation of its input |
| TopK.InsertDescSorted | record_utils.py:100-101 | inserting into a descending sequence keeps it descending; the new head is the larger of the old head and the value |
| TopK.SortDescSorted | record_utils.py:100-101 | the reference sort is descending |
| TopK.SortedUnique | record_utils.py:100-101 | two descending permutations of the same multiset are equal |
| TopK.SortDescOfSorted | record_utils.py:100-101 | sorting an already descending sequence leaves it unchanged |
| TopK.TopValuesMeaning | record_utils.py:100-101 | the top-k values are descending, are `min(k, n)` of the input's values, and each is at least every value left out |
| TopK.TopPerm | record_utils.py:96-101 | the top-k depend only on the multiset of values, not on their order |
| TopK.TopIdempotent | record_utils.py:100-101 | taking the top-k of a top-k changes nothing |
| TopK.TopSnoc | record_utils.py:39-46 | adding one value to the input changes its top-k by one heap step |
| TopK.TopAbsorb | record_utils.py:96-101 | reducing a prefix to its top-k before adding more values does not change the final top-k |
| TopK.TopOfTops | record_utils.py:96-101 | the top-k of two partial top-ks is the top-k of the union of the parts |
| TopK.StepGrows | record_utils.py:39-42 | while fewer than k values are kept, a heap step adds the new value |
| TopK.StepReplacesMin | record_utils.py:43-46 | with k values kept, a value above the smallest replaces it |
| TopK.StepDiscards | record_utils.py:43-46 | with k values kept, a value not above the smallest is discarded |
| TopK.InsertByValue | record_utils.py:100-101 | inserting a record by value adds exactly that record, and the values move as in the reference insertion |
| TopK.SortByValue | record_utils.py:100-101 | the stable descending sort by value is a permutation of its input whose values are the reference sort |
| TopK.NLargest | record_utils.py:100-101 | `heapq.nlargest` by value; its contract is NLargestMeaning, SelectionDominates and SelectionTakesAll |
| TopK.NLargestMeaning | record_utils.py:100-101 | `nlargest(n)` returns `min(max(n,0), len)` of the input records, and its values are the reference top values, so they are in descending order |
| TopK.NLargestValues | record_utils.py:100-101 | for a positive `n`, the values selected by `nlargest` are the reference top-n of the input's values |
| TopK.SelectionDominates | record_utils.py:100-104 | each selected record's value is at least that of every record left out |
| TopK.SelectionTakesAll | record_utils.py:100-104 | when `n` is at least the input size, every record is selected |
| Heap.RootIsMin | record_utils.py:46 | the root of a heap has the smallest value of the heap |
| Heap.Swap | record_utils.py:42-46 | exchanging two heap slots permutes the heap |
| Heap.UpStep | record_utils.py:42 | one `_siftdown` step, taken when the moved item's value is below its parent's, keeps the heap order, except at the item's new position |
| Heap.UpDone | record_utils.py:42 | `_siftdown` stops with a valid heap once the parent is not larger |
| Heap.DownStep | record_utils.py:46 | moving the hole of `_siftup` to its smaller child keeps the heap order below the hole |
| Heap.DownDone | record_utils.py:46 | once `_siftup`'s hole reaches a leaf, only the upward repair is left |
| Heap.MinHeap.constructor | record_utils.py:27 | a new heap is empty and valid |
| Heap.MinHeap.SiftDown | record_utils.py:42 | `_siftdown` restores the heap order, keeping the same records |
| Heap.MinHeap.SiftUp | record_utils.py:46 | `_siftup` restores the heap order after the root was replaced, keeping the same records |
| Heap.MinHeap.HeapPush | record_utils.py:42 | `heappush` adds exactly the item and keeps a valid heap |
| Heap.MinHeap.HeapPushPop | record_utils.py:46 | `heappushpop` replaces the root by the item and returns the root when the root is below the item; otherwise it returns the item and leaves the heap unchanged |
| RecordUtils.ChunkSize | record_utils.py:71 | the chunk capacity, 10000 lines; Partition states how it is used |
| RecordUtils.Ids | record_utils.py:104 | the id list has one entry per record, in order |
| RecordUtils.HeapMinIsLast | record_utils.py:39-46 | the root of a heap holding the top values carries the smallest of them |
| RecordUtils.AfterPush | record_utils.py:39-42 | a push of a record keeps the heap's values equal to the reference top values |
| RecordUtils.AfterReplace | record_utils.py:43-46 | a push-pop that replaces the root keeps the heap's values equal to the reference top values |
| RecordUtils.AfterDiscard | record_utils.py:43-46 | a push-pop that returns the new record leaves the reference top values unchanged |
| RecordUtils.ReadMalformed | record_utils.py:31-33 | a malformed line leaves the heap's meaning unchanged and adds one warning |
| RecordUtils.ReadValid | record_utils.py:35-46 | a valid line adds one record, no warning, and one reference step |
| RecordUtils.ReadPushed | record_utils.py:39-42 | after a push the heap represents the lines read so far |
| RecordUtils.ReadOffered | record_utils.py:43-46 | after a push-pop the heap represents the lines read so far |
| RecordUtils.FindLargestRecordsInChunk | record_utils.py:13-51 | the result holds `min(K, valid)` of the chunk's valid records, and its values are exactly the chunk's top-K values; the warning count is the number of malformed lines |
| RecordUtils.Partition | record_utils.py:71-94 | the chunks concatenate to the input, each holds 1 to 10000 lines, all but the last hold exactly 10000, and none is produced for an empty input |
| RecordUtils.MergeOfTops | record_utils.py:96-101 | top-K of the concatenated partial tops equals top-K of the concatenated parts |
| RecordUtils.ValidRecordsFlatten | record_utils.py:78-94 | partitioning does not change which records are valid |
| RecordUtils.MergeOfChunkTops | record_utils.py:96-101 | the top-K values of the merged chunk results are the top-K values of the whole input |
| RecordUtils.CombineStep | record_utils.py:96-97 | adding one more partial top preserves the agreement with the whole input |
| RecordUtils.MergeOrderIrrelevant | record_utils.py:96-101 | whatever order the chunk results arrive in, `nlargest` selects the same values |
| RecordUtils.MergedWithin | record_utils.py:96-97 | every merged record is a valid record of the input, with multiplicity |
| RecordUtils.MergedSelection | record_utils.py:96-101 | `nlargest` over the merged results is a correct top-K selection of the input's valid records |
| RecordUtils.MergedSelectionAnyOrder | record_utils.py:96-101 | for any order in which `as_completed` delivers the chunk results, `nlargest` over the merged list is still a correct top-K selection of the input |
| RecordUtils.ExtendChunkTops | record_utils.py:81-94 | one more reduced chunk extends the list of correct partial tops |
| RecordUtils.ReduceChunks | record_utils.py:75-94 | every chunk gets a partial result that is among its valid records and carries its top-K values |
| RecordUtils.MergeResults | record_utils.py:96-97 | the merged list is the concatenation of the partial results |
| RecordUtils.MergedIds | record_utils.py:99-104 | the ids returned are those of a correct top-K selection, `min(K, valid)` of them |
| RecordUtils.FindLargestIdsParallel | record_utils.py:54-104 | empty input gives `[]`; otherwise the result has `min(max(K,0), valid)` ids, and they are the ids of a correct top-K selection of the valid records |
| RecordUtils.TopSelectionMeaning | record_utils.py:54-104 | a correct selection is in descending value order, beats every record left out, takes all records when K covers the input, and is empty for `K <= 0` or an empty input |

## Left out

- The process pool and `as_completed` are not modelled as concurrency. Chunks are reduced one after another, and `MergeOrderIrrelevant` shows that the arrival order of the results does not change the selected values.
- Warnings are modelled as a count of malformed lines. The printed text and its console output are not modelled.
- `main.py` is not part of this model; it reads the file or standard input and prompts for K.
- The `heapq` module's own source is not part of the repository. The heap follows the pure-Python `heappush`, `heappushpop`, `_siftdown` and `_siftup`, with start position 0 as this code always uses; the C accelerator's swaps are not modelled separately.
- Python's `int()` also accepts underscores between digits, non-ASCII decimal digits and surrounding whitespace. Only an optional sign and ASCII digits are modelled.
- On CPython 3.11 and later, `int()` raises `ValueError` for a token of more than 4300 digits, so such a line is skipped with a warning (`record_utils.py:47-49`). ParseInt has no digit limit and accepts that token.
- Python's `str.strip()`/`split()` also treat Unicode spaces as whitespace. Only the ASCII whitespace characters and the separators `\x1c`-`\x1f` are modelled.
- `data_lines` is modelled as a finite sequence. For a generator, `not data_lines` is always false in Python, and this case is not modelled separately; for an empty generator the result is `[]` either way.
- The unit tests' concrete expected id lists are not restated as lemmas. The parsing of their line shapes is covered by the example lemmas in `LineParse`.
- RecordUtils.FindLargestIdsParallel: the ids are fixed only up to the choice and order among records of equal value. Both depend on the heap layout left by each chunk and on the order in which `as_completed` (`record_utils.py:96`) yields the chunk results.
- RecordUtils.FindLargestRecordsInChunk: fixes the returned records through their values and multiset, not the internal layout of the heap list.
- Record `__eq__` against a non-`Record` object and the unhashability caused by defining `__eq__` are not modelled.
- `top_x` is an integer; other argument types are not modelled.
