/**
 * The list-based binary min-heap of Python's `heapq`, as used by the chunk
 * reducer: `heappush` and `heappushpop`, with the two sift routines they call.
 * The ordering is Record's value-only `<`.
 */
module Heap {
  import opened RecordModel

  /** Index of the parent of slot `j` (`(j - 1) >> 1`). */
  function Parent(j: nat): nat
    requires j > 0
  {
    (j - 1) / 2
  }

  /** The heap invariant: no record is smaller than its parent. */
  ghost predicate IsHeap(s: seq<Record>)
  {
    forall j :: 0 < j < |s| ==> s[Parent(j)].recordValue <= s[j].recordValue
  }

  /**
   * A heap except that slot `k` may be smaller than its parent; the parent of
   * `k` is still no larger than `k`'s children (what sifting `k` up needs).
   */
  ghost predicate HeapExceptUp(s: seq<Record>, k: nat)
  {
    (forall j :: 0 < j < |s| && j != k ==> s[Parent(j)].recordValue <= s[j].recordValue) &&
    (0 < k ==> forall j :: 0 < j < |s| && Parent(j) == k ==> s[Parent(k)].recordValue <= s[j].recordValue)
  }

  /**
   * A heap except around slot `k`, whose record is being moved down: `k` may
   * be larger than its children and smaller than its parent, but the parent of
   * `k` is no larger than `k`'s children.
   */
  ghost predicate HeapExceptDown(s: seq<Record>, k: nat)
  {
    (forall j :: 0 < j < |s| && j != k && Parent(j) != k ==> s[Parent(j)].recordValue <= s[j].recordValue) &&
    (0 < k ==> forall j :: 0 < j < |s| && Parent(j) == k ==> s[Parent(k)].recordValue <= s[j].recordValue)
  }

  /** The root of a heap holds a smallest value. */
  lemma {:induction false} RootIsMin(s: seq<Record>, j: nat)
    requires IsHeap(s) && j < |s|
    ensures s[0].recordValue <= s[j].recordValue
    decreases j
  {
    if j > 0 {
      RootIsMin(s, Parent(j));
    }
  }

  /** `s` with the records in slots `i` and `j` exchanged. */
  function Swap(s: seq<Record>, i: nat, j: nat): (r: seq<Record>)
    requires i < |s| && j < |s|
    ensures |r| == |s| && multiset(r) == multiset(s)
  {
    s[i := s[j]][j := s[i]]
  }

  /**
   * Moving the record at `from` into the hole at `pos` and the hole to `from`
   * is a swap on the view with the new item written into the hole.
   */
  lemma MoveIntoHole(s: seq<Record>, pos: nat, from: nat, x: Record)
    requires pos < |s| && from < |s| && pos != from
    ensures s[pos := s[from]][from := x] == Swap(s[pos := x], pos, from)
  {
  }

  lemma PushStart(s: seq<Record>, x: Record)
    requires IsHeap(s)
    ensures HeapExceptUp(s + [x], |s|)
  {
  }

  lemma ReplaceRootStart(s: seq<Record>, x: Record)
    requires IsHeap(s) && |s| > 0
    ensures HeapExceptDown(s[0 := x], 0)
  {
  }

  /** Moving a record above a larger parent keeps the "heap except going up" shape. */
  lemma UpStep(s: seq<Record>, k: nat)
    requires 0 < k < |s|
    requires HeapExceptUp(s, k)
    requires s[k].recordValue < s[Parent(k)].recordValue
    ensures HeapExceptUp(Swap(s, k, Parent(k)), Parent(k))
  {
    var p := Parent(k);
    var r := Swap(s, k, p);
    forall j | 0 < j < |r| && j != p
      ensures r[Parent(j)].recordValue <= r[j].recordValue
    {
      if Parent(j) == p && j != k {
        assert s[p].recordValue <= s[j].recordValue;
      }
    }
  }

  lemma UpDone(s: seq<Record>, k: nat)
    requires k < |s|
    requires HeapExceptUp(s, k)
    requires k == 0 || s[Parent(k)].recordValue <= s[k].recordValue
    ensures IsHeap(s)
  {
  }

  /** Moving a record below its smaller child keeps the "heap except going down" shape. */
  lemma DownStep(s: seq<Record>, k: nat, c: nat)
    requires 0 < c < |s| && Parent(c) == k
    requires HeapExceptDown(s, k)
    requires forall d :: 0 < d < |s| && Parent(d) == k ==> s[c].recordValue <= s[d].recordValue
    ensures HeapExceptDown(Swap(s, k, c), c)
  {
    var r := Swap(s, k, c);
    forall j | 0 < j < |r| && j != c && Parent(j) != c
      ensures r[Parent(j)].recordValue <= r[j].recordValue
    {
      if j == k {
        assert s[Parent(k)].recordValue <= s[c].recordValue;
      } else if Parent(j) == k {
        assert s[c].recordValue <= s[j].recordValue;
      }
    }
    forall j | 0 < j < |r| && Parent(j) == c
      ensures r[Parent(c)].recordValue <= r[j].recordValue
    {
      assert s[c].recordValue <= s[j].recordValue;
    }
  }

  lemma DownDone(s: seq<Record>, k: nat)
    requires k < |s| && 2 * k + 1 >= |s|
    requires HeapExceptDown(s, k)
    ensures HeapExceptUp(s, k)
  {
  }

  class MinHeap {
    /** The Python list holding the heap. */
    var items: seq<Record>

    ghost predicate Valid()
      reads this
    {
      IsHeap(items)
    }

    /** An empty list, `min_heap = []`. */
    constructor ()
      ensures Valid() && items == []
    {
      items := [];
    }

    /**
     * `_siftdown(heap, 0, pos)`: the record at `pos` moves towards the root
     * while it is smaller than its parent; each larger parent moves down into
     * the hole it leaves.
     */
    method SiftDown(pos0: nat)
      requires pos0 < |items|
      requires HeapExceptUp(items, pos0)
      modifies this
      ensures Valid()
      ensures multiset(items) == old(multiset(items))
      ensures |items| == old(|items|)
    {
      var pos := pos0;
      var newitem := items[pos];
      assert items[pos := newitem] == items;
      // the loop of `_siftdown`: continue while the new item is below its parent
      while pos > 0 && Less(newitem, items[Parent(pos)])
        invariant pos < |items| == old(|items|)
        invariant HeapExceptUp(items[pos := newitem], pos)
        invariant multiset(items[pos := newitem]) == old(multiset(items))
        decreases pos
      {
        var parentpos := Parent(pos);
        var parent := items[parentpos];
        ghost var s := items[pos := newitem];
        UpStep(s, pos);
        MoveIntoHole(items, pos, parentpos, newitem);
        items := items[pos := parent];
        pos := parentpos;
      }
      UpDone(items[pos := newitem], pos);
      items := items[pos := newitem];
    }

    /**
     * `_siftup(heap, 0)`: the hole at the root moves down to a leaf, each step
     * pulling up the smaller child (the right one unless the left is strictly
     * smaller); the displaced record is put in the leaf and sifted back up.
     */
    method SiftUp()
      requires |items| > 0
      requires HeapExceptDown(items, 0)
      modifies this
      ensures Valid()
      ensures multiset(items) == old(multiset(items))
      ensures |items| == old(|items|)
    {
      var endpos := |items|;
      var pos := 0;
      var newitem := items[pos];
      var childpos := 2 * pos + 1;
      assert items[pos := newitem] == items;
      while childpos < endpos
        invariant childpos == 2 * pos + 1
        invariant pos < |items| == endpos == old(|items|)
        invariant HeapExceptDown(items[pos := newitem], pos)
        invariant multiset(items[pos := newitem]) == old(multiset(items))
        decreases endpos - pos
      {
        var rightpos := childpos + 1;
        if rightpos < endpos && !Less(items[childpos], items[rightpos]) {
          childpos := rightpos;
        }
        ghost var s := items[pos := newitem];
        DownStep(s, pos, childpos);
        MoveIntoHole(items, pos, childpos, newitem);
        items := items[pos := items[childpos]];
        pos := childpos;
        childpos := 2 * pos + 1;
      }
      DownDone(items[pos := newitem], pos);
      items := items[pos := newitem];
      SiftDown(pos);
    }

    /** `heapq.heappush(heap, item)`. */
    method HeapPush(item: Record)
      requires Valid()
      modifies this
      ensures Valid()
      ensures multiset(items) == old(multiset(items)) + multiset{item}
      ensures |items| == old(|items|) + 1
    {
      PushStart(items, item);
      items := items + [item];
      SiftDown(|items| - 1);
    }

    /**
     * `heapq.heappushpop(heap, item)`: when the heap is non-empty and its root
     * is strictly smaller than `item`, the root is replaced by `item` and
     * returned; otherwise the heap is left alone and `item` itself is returned.
     */
    method HeapPushPop(item: Record) returns (popped: Record)
      requires Valid()
      modifies this
      ensures Valid()
      ensures |items| == old(|items|)
      ensures old(items) != [] && Less(old(items)[0], item) ==>
        popped == old(items)[0] && multiset(items) == old(multiset(items)) - multiset{popped} + multiset{item}
      ensures !(old(items) != [] && Less(old(items)[0], item)) ==>
        popped == item && items == old(items)
    {
      popped := item;
      if items != [] && Less(items[0], item) {
        popped := items[0];
        ReplaceRootStart(items, item);
        items := items[0 := item];
        SiftUp();
      }
    }
  }
}
