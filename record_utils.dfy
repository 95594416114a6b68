/**
 * The top-K pipeline of record_utils.py: the per-chunk reducer over a bounded
 * min-heap, the partitioner that cuts the input into chunks of 10000 lines,
 * and the global merge by `nlargest`. The process pool is modelled as
 * running the reducer on each chunk in turn.
 */
module RecordUtils {
  import opened Util
  import opened RecordModel
  import opened LineParse
  import opened TopK
  import opened Heap

  /** Lines per chunk (`chunk_size`). */
  const ChunkSize: nat := 10000

  /** The identifiers of a list of records, in order. */
  function Ids(rs: seq<Record>): (ids: seq<int>)
    ensures |ids| == |rs|
    ensures forall i :: 0 <= i < |rs| ==> ids[i] == rs[i].recordId
  {
    if rs == [] then [] else [rs[0].recordId] + Ids(rs[1..])
  }

  /** The values of the records of all well-formed lines. */
  function ValidValues(lines: seq<string>): seq<int>
  {
    Values(ValidRecords(lines))
  }

  /**
   * `sel` is a top-`top_x` selection of the valid records of `lines`: it is
   * drawn from them and its values are the reference top-K, in descending order.
   */
  ghost predicate IsTopSelection(sel: seq<Record>, lines: seq<string>, topX: int)
  {
    multiset(sel) <= multiset(ValidRecords(lines)) &&
    Values(sel) == TopValues(ValidValues(lines), Cap(topX))
  }

  // ---------------------------------------------------------------------------
  // Chunk reducer

  /** The root of a heap holds the last (smallest) value of the sorted top-K list it represents. */
  lemma HeapMinIsLast(items: seq<Record>, t: seq<int>)
    requires IsHeap(items) && items != []
    requires SortedDesc(t)
    requires multiset(Values(items)) == multiset(t)
    ensures |t| == |items| && items[0].recordValue == t[|t| - 1]
  {
    var vs := Values(items);
    assert |t| == |multiset(t)| == |multiset(vs)| == |items|;
    var last := |t| - 1;
    assert vs[0] in multiset(t);
    var i :| 0 <= i < |t| && t[i] == vs[0];
    assert t[i] >= t[last] by {
      if i < last {
        assert t[i] >= t[last];
      }
    }
    assert t[last] in multiset(vs);
    var j :| 0 <= j < |vs| && vs[j] == t[last];
    RootIsMin(items, j);
  }

  /** After `heappush` below capacity, the heap represents one more Step of the top-K list. */
  lemma AfterPush(before: seq<Record>, after: seq<Record>, r: Record, t: seq<int>, k: nat)
    requires multiset(after) == multiset(before) + multiset{r}
    requires multiset(Values(before)) == multiset(t)
    requires |t| < k
    ensures multiset(Values(after)) == multiset(Step(t, r.recordValue, k))
  {
    StepGrows(t, r.recordValue, k);
    ValuesPerm(after, before + [r]);
    ValuesAppend(before, [r]);
  }

  /** After `heappushpop` evicts the root, the heap represents one more Step of the top-K list. */
  lemma AfterReplace(before: seq<Record>, after: seq<Record>, r: Record, t: seq<int>, k: nat)
    requires IsHeap(before) && before != [] && Less(before[0], r)
    requires multiset(after) == multiset(before) - multiset{before[0]} + multiset{r}
    requires multiset(Values(before)) == multiset(t)
    requires SortedDesc(t) && |t| == k
    ensures multiset(Values(after)) == multiset(Step(t, r.recordValue, k))
  {
    HeapMinIsLast(before, t);
    StepReplacesMin(t, r.recordValue, k);
    UpdateMultiset(before, 0, r);
    ValuesPerm(after, before[0 := r]);
    ValuesUpdate(before, 0, r);
    UpdateMultiset(Values(before), 0, r.recordValue);
    assert Values(before)[0] == t[k - 1];
  }

  /** When `heappushpop` hands the new record back, the top-K list does not change either. */
  lemma AfterDiscard(before: seq<Record>, r: Record, t: seq<int>, k: nat)
    requires IsHeap(before) && !(before != [] && Less(before[0], r))
    requires multiset(Values(before)) == multiset(t)
    requires SortedDesc(t) && |t| == k
    ensures Step(t, r.recordValue, k) == t
  {
    if before != [] {
      HeapMinIsLast(before, t);
    } else {
      assert |t| == |multiset(t)| == 0;
    }
    StepDiscards(t, r.recordValue, k);
  }

  /**
   * The reducer's loop invariant: the heap holds `min(top_x, valid)` of the
   * valid records read so far, and its values are their top-`top_x` values.
   */
  ghost predicate Represents(items: seq<Record>, lines: seq<string>, topX: int)
  {
    |items| == Min(Cap(topX), |ValidRecords(lines)|) &&
    multiset(items) <= multiset(ValidRecords(lines)) &&
    multiset(Values(items)) == multiset(TopValues(ValidValues(lines), Cap(topX)))
  }

  /** A malformed line leaves the heap's invariant intact and counts one warning. */
  lemma ReadMalformed(items: seq<Record>, chunk: seq<string>, i: nat, topX: int)
    requires i < |chunk| && ParseLine(chunk[i]).None?
    requires Represents(items, chunk[..i], topX)
    ensures Represents(items, chunk[..i + 1], topX)
    ensures MalformedCount(chunk[..i + 1]) == MalformedCount(chunk[..i]) + 1
  {
    assert chunk[..i + 1][..i] == chunk[..i];
    assert ValidRecords(chunk[..i + 1]) == ValidRecords(chunk[..i]);
  }

  /** The facts about the next valid record that all three heap cases share. */
  lemma ReadValid(chunk: seq<string>, i: nat, r: Record, topX: int)
    requires i < |chunk| && ParseLine(chunk[i]) == Some(r)
    ensures ValidRecords(chunk[..i + 1]) == ValidRecords(chunk[..i]) + [r]
    ensures MalformedCount(chunk[..i + 1]) == MalformedCount(chunk[..i])
    ensures TopValues(ValidValues(chunk[..i + 1]), Cap(topX)) ==
      Step(TopValues(ValidValues(chunk[..i]), Cap(topX)), r.recordValue, Cap(topX))
    ensures SortedDesc(TopValues(ValidValues(chunk[..i]), Cap(topX)))
    ensures |TopValues(ValidValues(chunk[..i]), Cap(topX))| == Min(Cap(topX), |ValidRecords(chunk[..i])|)
  {
    assert chunk[..i + 1][..i] == chunk[..i];
    ValuesAppend(ValidRecords(chunk[..i]), [r]);
    TopSnoc(ValidValues(chunk[..i]), r.recordValue, Cap(topX));
    TopValuesMeaning(ValidValues(chunk[..i]), Cap(topX));
  }

  /** A valid record pushed onto a heap holding fewer than `top_x` records. */
  lemma ReadPushed(before: seq<Record>, after: seq<Record>, chunk: seq<string>, i: nat, r: Record, topX: int)
    requires i < |chunk| && ParseLine(chunk[i]) == Some(r)
    requires Represents(before, chunk[..i], topX) && |before| < topX
    requires multiset(after) == multiset(before) + multiset{r} && |after| == |before| + 1
    ensures Represents(after, chunk[..i + 1], topX)
    ensures MalformedCount(chunk[..i + 1]) == MalformedCount(chunk[..i])
  {
    ReadValid(chunk, i, r, topX);
    AfterPush(before, after, r, TopValues(ValidValues(chunk[..i]), Cap(topX)), Cap(topX));
  }

  /** A valid record offered to `heappushpop` on a heap holding `top_x` records. */
  lemma ReadOffered(before: seq<Record>, after: seq<Record>, chunk: seq<string>, i: nat, r: Record, topX: int)
    requires i < |chunk| && ParseLine(chunk[i]) == Some(r)
    requires Represents(before, chunk[..i], topX) && IsHeap(before) && |before| >= topX
    requires |after| == |before|
    requires before != [] && Less(before[0], r) ==>
      multiset(after) == multiset(before) - multiset{before[0]} + multiset{r}
    requires !(before != [] && Less(before[0], r)) ==> after == before
    ensures Represents(after, chunk[..i + 1], topX)
    ensures MalformedCount(chunk[..i + 1]) == MalformedCount(chunk[..i])
  {
    ReadValid(chunk, i, r, topX);
    var k := Cap(topX);
    var t := TopValues(ValidValues(chunk[..i]), k);
    assert |t| == |before| == k;
    if before != [] && Less(before[0], r) {
      AfterReplace(before, after, r, t, Cap(topX));
    } else {
      AfterDiscard(before, r, t, Cap(topX));
    }
  }

  /**
   * `find_largest_records_in_chunk(chunk, top_x)`: every well-formed line's
   * record is pushed while the heap holds fewer than `top_x` records, and
   * offered to `heappushpop` otherwise; malformed lines only raise a warning.
   * The result holds `min(top_x, valid)` of the chunk's valid records, and
   * its values are exactly the chunk's top-`top_x` values.
   */
  method FindLargestRecordsInChunk(chunk: seq<string>, topX: int) returns (result: seq<Record>, warnings: nat)
    ensures |result| == Min(Cap(topX), |ValidRecords(chunk)|)
    ensures multiset(result) <= multiset(ValidRecords(chunk))
    ensures multiset(Values(result)) == multiset(TopValues(ValidValues(chunk), Cap(topX)))
    ensures warnings == MalformedCount(chunk)
  {
    var minHeap := new MinHeap();
    warnings := 0;
    for i := 0 to |chunk|
      invariant minHeap.Valid()
      invariant Represents(minHeap.items, chunk[..i], topX)
      invariant warnings == MalformedCount(chunk[..i])
    {
      ghost var before := minHeap.items;
      match ParseLine(chunk[i]) {
        case None =>
          warnings := warnings + 1;
          ReadMalformed(before, chunk, i, topX);
        case Some(r) =>
          if |minHeap.items| < topX {
            minHeap.HeapPush(r);
            ReadPushed(before, minHeap.items, chunk, i, r, topX);
          } else {
            var _ := minHeap.HeapPushPop(r);
            ReadOffered(before, minHeap.items, chunk, i, r, topX);
          }
      }
    }
    assert chunk[..|chunk|] == chunk;
    result := minHeap.items;
  }

  // ---------------------------------------------------------------------------
  // Partitioner

  /**
   * The chunking loop of `find_largest_ids_parallel`: lines are appended to
   * the current chunk, which is cut off as soon as it holds `chunk_size`
   * lines; a non-empty remainder becomes the last chunk. The chunks, in
   * order, are exactly the input; all but the last are full, none is empty.
   */
  method Partition(dataLines: seq<string>) returns (chunks: seq<seq<string>>)
    ensures Flatten(chunks) == dataLines
    ensures forall i :: 0 <= i < |chunks| ==> 0 < |chunks[i]| <= ChunkSize
    ensures forall i :: 0 <= i < |chunks| - 1 ==> |chunks[i]| == ChunkSize
    ensures |chunks| == (|dataLines| + ChunkSize - 1) / ChunkSize
    ensures dataLines == [] <==> chunks == []
  {
    chunks := [];
    var chunk: seq<string> := [];
    for i := 0 to |dataLines|
      invariant Flatten(chunks) + chunk == dataLines[..i]
      invariant forall j :: 0 <= j < |chunks| ==> |chunks[j]| == ChunkSize
      invariant |chunk| < ChunkSize
      invariant i == |chunks| * ChunkSize + |chunk|
    {
      chunk := chunk + [dataLines[i]];
      if |chunk| == ChunkSize {
        FlattenSnoc(chunks, chunk);
        chunks := chunks + [chunk];
        chunk := [];
      }
    }
    assert dataLines[..|dataLines|] == dataLines;
    if chunk != [] {
      FlattenSnoc(chunks, chunk);
      chunks := chunks + [chunk];
    }
  }

  // ---------------------------------------------------------------------------
  // Global merge

  /** Merging per-part top-K lists has the same top-K values as all the parts together. */
  lemma {:induction false} MergeOfTops(parts: seq<seq<Record>>, partials: seq<seq<Record>>, k: nat)
    requires |partials| == |parts|
    requires forall i :: 0 <= i < |parts| ==>
      multiset(Values(partials[i])) == multiset(TopValues(Values(parts[i]), k))
    ensures TopValues(Values(Flatten(partials)), k) == TopValues(Values(Flatten(parts)), k)
    decreases |parts|
  {
    if parts != [] {
      var n := |parts| - 1;
      var ps, rs := partials[..n], parts[..n];
      forall i | 0 <= i < n
        ensures multiset(Values(ps[i])) == multiset(TopValues(Values(rs[i]), k))
      {
        assert ps[i] == partials[i] && rs[i] == parts[i];
      }
      MergeOfTops(rs, ps, k);
      ValuesAppend(Flatten(ps), partials[n]);
      ValuesAppend(Flatten(rs), parts[n]);
      CombineStep(Values(Flatten(ps)), Values(Flatten(rs)), Values(partials[n]), Values(parts[n]), k);
    }
  }

  /** The valid records of each chunk. */
  function ValidPerChunk(chunks: seq<seq<string>>): seq<seq<Record>>
  {
    seq(|chunks|, i requires 0 <= i < |chunks| => ValidRecords(chunks[i]))
  }

  /** Parsing chunk by chunk finds the same valid records, in the same order, as parsing the whole. */
  lemma {:induction false} ValidRecordsFlatten(chunks: seq<seq<string>>)
    ensures ValidRecords(Flatten(chunks)) == Flatten(ValidPerChunk(chunks))
    decreases |chunks|
  {
    if chunks != [] {
      var n := |chunks| - 1;
      ValidRecordsFlatten(chunks[..n]);
      assert ValidPerChunk(chunks)[..n] == ValidPerChunk(chunks[..n]);
      ValidRecordsAppend(Flatten(chunks[..n]), chunks[n]);
    }
  }

  /**
   * Merging per-chunk top-K results, for ANY division of the input into
   * chunks, has the same top-K values as the whole valid input.
   */
  lemma MergeOfChunkTops(chunks: seq<seq<string>>, partials: seq<seq<Record>>, k: nat)
    requires |partials| == |chunks|
    requires forall i :: 0 <= i < |chunks| ==>
      multiset(Values(partials[i])) == multiset(TopValues(ValidValues(chunks[i]), k))
    ensures TopValues(Values(Flatten(partials)), k) == TopValues(ValidValues(Flatten(chunks)), k)
  {
    MergeOfTops(ValidPerChunk(chunks), partials, k);
    ValidRecordsFlatten(chunks);
  }

  /** One more chunk: its top-K list joins lists whose top-K already agree. */
  lemma CombineStep(f: seq<int>, g: seq<int>, p: seq<int>, r: seq<int>, k: nat)
    requires TopValues(f, k) == TopValues(g, k)
    requires multiset(p) == multiset(TopValues(r, k))
    ensures TopValues(f + p, k) == TopValues(g + r, k)
  {
    calc {
      TopValues(f + p, k);
      { TopPerm(f + p, TopValues(r, k) + f, k); }
      TopValues(TopValues(r, k) + f, k);
      { TopAbsorb(r, f, k); }
      TopValues(r + f, k);
      { TopPerm(r + f, f + r, k); }
      TopValues(f + r, k);
      { TopAbsorb(f, r, k); }
      TopValues(TopValues(f, k) + r, k);
      TopValues(TopValues(g, k) + r, k);
      { TopAbsorb(g, r, k); }
      TopValues(g + r, k);
    }
  }

  /**
   * The order in which chunk results arrive (`as_completed`) does not matter:
   * any permutation of the partial results gives the same selected values.
   */
  lemma MergeOrderIrrelevant(partials: seq<seq<Record>>, arrived: seq<seq<Record>>, topX: int)
    requires multiset(partials) == multiset(arrived)
    ensures Values(NLargest(topX, Flatten(arrived))) == Values(NLargest(topX, Flatten(partials)))
  {
    FlattenPermutation(partials, arrived);
    ValuesPerm(Flatten(partials), Flatten(arrived));
    TopPerm(Values(Flatten(partials)), Values(Flatten(arrived)), Cap(topX));
    NLargestMeaning(topX, Flatten(partials));
    NLargestMeaning(topX, Flatten(arrived));
  }

  /** What the reducer promises about one chunk's result. */
  ghost predicate IsChunkTop(partial: seq<Record>, chunk: seq<string>, topX: int)
  {
    multiset(partial) <= multiset(ValidRecords(chunk)) &&
    multiset(Values(partial)) == multiset(TopValues(ValidValues(chunk), Cap(topX)))
  }

  /** The merged partial results stay within the valid records of their chunks. */
  lemma {:induction false} MergedWithin(chunks: seq<seq<string>>, partials: seq<seq<Record>>, topX: int)
    requires |partials| == |chunks|
    requires forall j :: 0 <= j < |chunks| ==> IsChunkTop(partials[j], chunks[j], topX)
    ensures multiset(Flatten(partials)) <= multiset(ValidRecords(Flatten(chunks)))
    decreases |chunks|
  {
    if chunks != [] {
      var n := |chunks| - 1;
      forall j | 0 <= j < n ensures IsChunkTop(partials[..n][j], chunks[..n][j], topX) {
        assert partials[..n][j] == partials[j] && chunks[..n][j] == chunks[j];
      }
      MergedWithin(chunks[..n], partials[..n], topX);
      assert IsChunkTop(partials[n], chunks[n], topX);
      ValidRecordsAppend(Flatten(chunks[..n]), chunks[n]);
    }
  }

  /** Selecting with nlargest from the merged partial results is a top-`top_x` selection of the input. */
  lemma MergedSelection(dataLines: seq<string>, chunks: seq<seq<string>>, partials: seq<seq<Record>>, topX: int)
    requires Flatten(chunks) == dataLines
    requires |partials| == |chunks|
    requires forall j :: 0 <= j < |chunks| ==> IsChunkTop(partials[j], chunks[j], topX)
    ensures IsTopSelection(NLargest(topX, Flatten(partials)), dataLines, topX)
  {
    var merged := Flatten(partials);
    NLargestMeaning(topX, merged);
    MergedWithin(chunks, partials, topX);
    MergeOfChunkTops(chunks, partials, Cap(topX));
  }

  /**
   * Whatever order `as_completed` yields the chunk results in, selecting with
   * nlargest from the merged list is still a top-`top_x` selection of the input.
   */
  lemma MergedSelectionAnyOrder(dataLines: seq<string>, chunks: seq<seq<string>>, partials: seq<seq<Record>>,
                                arrived: seq<seq<Record>>, topX: int)
    requires Flatten(chunks) == dataLines
    requires |partials| == |chunks|
    requires forall j :: 0 <= j < |chunks| ==> IsChunkTop(partials[j], chunks[j], topX)
    requires multiset(arrived) == multiset(partials)
    ensures IsTopSelection(NLargest(topX, Flatten(arrived)), dataLines, topX)
  {
    MergedSelection(dataLines, chunks, partials, topX);
    MergedWithin(chunks, partials, topX);
    FlattenPermutation(partials, arrived);
    NLargestMeaning(topX, Flatten(arrived));
    MergeOrderIrrelevant(partials, arrived, topX);
  }

  /** One more reduced chunk keeps every partial result a local top selection. */
  lemma ExtendChunkTops(results: seq<seq<Record>>, chunks: seq<seq<string>>, chunkResult: seq<Record>, topX: int)
    requires |results| < |chunks|
    requires forall j :: 0 <= j < |results| ==> IsChunkTop(results[j], chunks[j], topX)
    requires multiset(chunkResult) <= multiset(ValidRecords(chunks[|results|]))
    requires multiset(Values(chunkResult)) == multiset(TopValues(ValidValues(chunks[|results|]), Cap(topX)))
    ensures forall j :: 0 <= j <= |results| ==> IsChunkTop((results + [chunkResult])[j], chunks[j], topX)
  {
    forall j | 0 <= j <= |results|
      ensures IsChunkTop((results + [chunkResult])[j], chunks[j], topX)
    {
      if j < |results| {
        assert (results + [chunkResult])[j] == results[j];
      } else {
        assert (results + [chunkResult])[j] == chunkResult;
      }
    }
  }

  /**
   * `executor.submit(find_largest_records_in_chunk, chunk, top_x)` for every
   * chunk, run one after the other; `results[i]` is what the future of
   * chunk `i` yields.
   */
  method ReduceChunks(chunks: seq<seq<string>>, topX: int) returns (results: seq<seq<Record>>)
    ensures |results| == |chunks|
    ensures forall j :: 0 <= j < |chunks| ==> IsChunkTop(results[j], chunks[j], topX)
  {
    results := [];
    for i := 0 to |chunks|
      invariant |results| == i
      invariant forall j :: 0 <= j < i ==> IsChunkTop(results[j], chunks[j], topX)
    {
      var chunkResult, _ := FindLargestRecordsInChunk(chunks[i], topX);
      ExtendChunkTops(results, chunks, chunkResult, topX);
      results := results + [chunkResult];
    }
  }

  /** `merged_results.extend(chunk_result)` for each partial result in turn. */
  method MergeResults(partials: seq<seq<Record>>) returns (mergedResults: seq<Record>)
    ensures mergedResults == Flatten(partials)
  {
    mergedResults := [];
    for i := 0 to |partials|
      invariant mergedResults == Flatten(partials[..i])
    {
      assert partials[..i + 1] == partials[..i] + [partials[i]];
      FlattenSnoc(partials[..i], partials[i]);
      mergedResults := mergedResults + partials[i];
    }
    assert partials[..|partials|] == partials;
  }

  /**
   * `find_largest_ids_parallel(data_lines, top_x)`: empty input gives `[]`;
   * otherwise the input is partitioned, each chunk reduced to its local
   * top-`top_x`, the partial results concatenated, and the identifiers of
   * `nlargest(top_x, merged, key=value)` returned. The result lists the
   * identifiers of a top-`top_x` selection of the valid records, in
   * descending order of value.
   */
  method FindLargestIdsParallel(dataLines: seq<string>, topX: int) returns (ids: seq<int>)
    ensures dataLines == [] ==> ids == []
    ensures |ids| == Min(Cap(topX), |ValidRecords(dataLines)|)
    ensures exists sel :: IsTopSelection(sel, dataLines, topX) && ids == Ids(sel)
  {
    if dataLines == [] {
      assert IsTopSelection([], dataLines, topX);
      return [];
    }
    var chunks := Partition(dataLines);
    var futures := ReduceChunks(chunks, topX);
    var mergedResults := MergeResults(futures);
    var xLargest := NLargest(topX, mergedResults);
    ids := Ids(xLargest);
    MergedIds(dataLines, chunks, futures, topX);
  }

  /** The identifiers of `nlargest` over the merged partial results are those of a top selection. */
  lemma MergedIds(dataLines: seq<string>, chunks: seq<seq<string>>, partials: seq<seq<Record>>, topX: int)
    requires Flatten(chunks) == dataLines
    requires |partials| == |chunks|
    requires forall j :: 0 <= j < |chunks| ==> IsChunkTop(partials[j], chunks[j], topX)
    ensures |Ids(NLargest(topX, Flatten(partials)))| == Min(Cap(topX), |ValidRecords(dataLines)|)
    ensures exists sel :: IsTopSelection(sel, dataLines, topX) && Ids(NLargest(topX, Flatten(partials))) == Ids(sel)
  {
    var sel := NLargest(topX, Flatten(partials));
    MergedSelection(dataLines, chunks, partials, topX);
    TopSelectionMeaning(sel, dataLines, topX);
  }

  /**
   * What a top-`top_x` selection promises: `min(top_x, valid)` records,
   * non-increasing values, none smaller than a valid record left out, and
   * every valid record when `top_x` is at least their number.
   */
  lemma TopSelectionMeaning(sel: seq<Record>, lines: seq<string>, topX: int)
    requires IsTopSelection(sel, lines, topX)
    ensures |sel| == Min(Cap(topX), |ValidRecords(lines)|)
    ensures forall i, j :: 0 <= i < j < |sel| ==> sel[i].recordValue >= sel[j].recordValue
    ensures forall a, b :: a in sel && b in multiset(ValidRecords(lines)) - multiset(sel) ==>
      a.recordValue >= b.recordValue
    ensures topX >= |ValidRecords(lines)| ==> multiset(sel) == multiset(ValidRecords(lines))
    ensures topX <= 0 || lines == [] ==> sel == []
  {
    TopValuesMeaning(ValidValues(lines), Cap(topX));
    assert |Values(sel)| == |sel|;
    forall i, j | 0 <= i < j < |sel| ensures sel[i].recordValue >= sel[j].recordValue {
      assert Values(sel)[i] >= Values(sel)[j];
    }
    SelectionDominates(sel, ValidRecords(lines), Cap(topX));
    if topX >= |ValidRecords(lines)| {
      SelectionTakesAll(sel, ValidRecords(lines), Cap(topX));
    }
  }
}
