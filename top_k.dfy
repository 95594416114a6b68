/**
 * The value-level meaning of "the K largest": a reference definition by
 * sorting, the stable selection that `heapq.nlargest(n, xs, key=value)`
 * performs on records, and the facts about both that the pipeline's proofs
 * are built from.
 */
module TopK {
  import opened Util
  import opened RecordModel

  /** The values of a list of records, in order. */
  function Values(rs: seq<Record>): (vs: seq<int>)
    ensures |vs| == |rs|
    ensures forall i :: 0 <= i < |rs| ==> vs[i] == rs[i].recordValue
  {
    seq(|rs|, i requires 0 <= i < |rs| => rs[i].recordValue)
  }

  /** How many records a selection of `n` keeps; a negative `n` keeps none. */
  function Cap(n: int): nat
  {
    if n <= 0 then 0 else n
  }

  ghost predicate SortedDesc(s: seq<int>)
  {
    forall i, j :: 0 <= i < j < |s| ==> s[i] >= s[j]
  }

  /** Insert `x` after every element that is at least `x`. */
  function InsertDesc(s: seq<int>, x: int): (r: seq<int>)
    ensures |r| == |s| + 1
    ensures multiset(r) == multiset(s) + multiset{x}
  {
    if s == [] then [x]
    else if s[0] >= x then
      assert s == [s[0]] + s[1..];
      [s[0]] + InsertDesc(s[1..], x)
    else [x] + s
  }

  /** Insertion sort into non-increasing order. */
  function SortDesc(s: seq<int>): (r: seq<int>)
    ensures |r| == |s|
    ensures multiset(r) == multiset(s)
  {
    if s == [] then []
    else
      assert s == s[..|s| - 1] + [s[|s| - 1]];
      InsertDesc(SortDesc(s[..|s| - 1]), s[|s| - 1])
  }

  /** The reference top-K: the first `min(k, |vs|)` values of the values sorted in descending order. */
  function TopValues(vs: seq<int>, k: nat): seq<int>
  {
    SortDesc(vs)[..Min(k, |vs|)]
  }

  /** What one more value does to a top-K list `t` (Insert, then cut back to the capacity). */
  function Step(t: seq<int>, x: int, k: nat): seq<int>
  {
    InsertDesc(t, x)[..Min(k, |t| + 1)]
  }

  // ---------------------------------------------------------------------------
  // Sorting

  /** Inserting a value no larger than a bound into values no larger than it stays below the bound. */
  lemma {:induction false} InsertDescBelow(s: seq<int>, x: int, b: int)
    requires forall i :: 0 <= i < |s| ==> s[i] <= b
    requires x <= b
    ensures forall i :: 0 <= i < |InsertDesc(s, x)| ==> InsertDesc(s, x)[i] <= b
    decreases |s|
  {
    if s != [] && s[0] >= x {
      InsertDescBelow(s[1..], x, b);
      assert InsertDesc(s, x) == [s[0]] + InsertDesc(s[1..], x);
    }
  }

  lemma {:induction false} InsertDescSorted(s: seq<int>, x: int)
    requires SortedDesc(s)
    ensures SortedDesc(InsertDesc(s, x))
    ensures InsertDesc(s, x)[0] == (if s != [] && s[0] >= x then s[0] else x)
    decreases |s|
  {
    if s != [] && s[0] >= x {
      var tail := InsertDesc(s[1..], x);
      SortedTail(s);
      InsertDescSorted(s[1..], x);
      InsertDescBelow(s[1..], x, s[0]);
      assert InsertDesc(s, x) == [s[0]] + tail;
      ConsSorted(s[0], tail);
    } else {
      assert InsertDesc(s, x) == [x] + s;
      forall i | 0 <= i < |s| ensures s[i] <= x {
        assert s[0] >= s[i];
      }
      ConsSorted(x, s);
    }
  }

  /** The tail of a list sorted descending is sorted and no larger than the head. */
  lemma SortedTail(s: seq<int>)
    requires SortedDesc(s) && s != []
    ensures SortedDesc(s[1..])
    ensures forall i :: 0 <= i < |s[1..]| ==> s[1..][i] <= s[0]
  {
    forall i | 0 <= i < |s[1..]| ensures s[1..][i] <= s[0] {
      assert s[1..][i] == s[i + 1];
    }
  }

  /** A sorted list below a head value stays sorted with that head in front. */
  lemma ConsSorted(h: int, tail: seq<int>)
    requires SortedDesc(tail)
    requires forall i :: 0 <= i < |tail| ==> tail[i] <= h
    ensures SortedDesc([h] + tail)
  {
    var r := [h] + tail;
    forall i, j | 0 <= i < j < |r| ensures r[i] >= r[j] {
      assert r[j] == tail[j - 1];
      if i > 0 {
        assert r[i] == tail[i - 1];
      }
    }
  }

  lemma {:induction false} SortDescSorted(s: seq<int>)
    ensures SortedDesc(SortDesc(s))
    decreases |s|
  {
    if s != [] {
      SortDescSorted(s[..|s| - 1]);
      InsertDescSorted(SortDesc(s[..|s| - 1]), s[|s| - 1]);
    }
  }

  /** A sorted sequence is determined by its multiset. */
  lemma {:induction false} SortedUnique(a: seq<int>, b: seq<int>)
    requires SortedDesc(a) && SortedDesc(b)
    requires multiset(a) == multiset(b)
    ensures a == b
    decreases |a|
  {
    assert |a| == |multiset(a)| == |multiset(b)| == |b|;
    if a != [] {
      assert a[0] in multiset(b);
      assert b[0] in multiset(a);
      assert a[0] == b[0];
      assert a == [a[0]] + a[1..];
      assert b == [b[0]] + b[1..];
      assert multiset(a[1..]) == multiset(a) - multiset{a[0]};
      assert multiset(b[1..]) == multiset(b) - multiset{b[0]};
      SortedUnique(a[1..], b[1..]);
    }
  }

  /** Sorting is the identity on sorted input. */
  lemma SortDescOfSorted(s: seq<int>)
    requires SortedDesc(s)
    ensures SortDesc(s) == s
  {
    SortDescSorted(s);
    SortedUnique(SortDesc(s), s);
  }

  // ---------------------------------------------------------------------------
  // The reference top-K

  /**
   * The top-K list has `min(k, |vs|)` elements, is sorted in descending order,
   * is drawn from the input, keeps every input value when `k >= |vs|`, and
   * dominates every value it leaves out.
   */
  lemma TopValuesMeaning(vs: seq<int>, k: nat)
    ensures |TopValues(vs, k)| == Min(k, |vs|)
    ensures SortedDesc(TopValues(vs, k))
    ensures multiset(TopValues(vs, k)) <= multiset(vs)
    ensures k >= |vs| ==> multiset(TopValues(vs, k)) == multiset(vs)
    ensures forall x :: x in multiset(vs) - multiset(TopValues(vs, k)) ==>
      forall i :: 0 <= i < |TopValues(vs, k)| ==> TopValues(vs, k)[i] >= x
  {
    var s := SortDesc(vs);
    var m := Min(k, |vs|);
    assert SortedDesc(s[..m]) &&
      forall x :: x in multiset(s[m..]) ==> forall i :: 0 <= i < |s[..m]| ==> s[..m][i] >= x
    by {
      SortDescSorted(vs);
      SortedPrefix(s, m);
      SortedSplitDominates(s, m);
    }
    SplitMultiset(s, m);
    assert multiset(vs) - multiset(s[..m]) == multiset(s[m..]);
  }

  /** A prefix of a list sorted descending is sorted descending. */
  lemma SortedPrefix(s: seq<int>, m: nat)
    requires SortedDesc(s) && m <= |s|
    ensures SortedDesc(s[..m])
  {
  }

  /** In a list sorted descending, every element before a cut is at least every element after it. */
  lemma SortedSplitDominates(s: seq<int>, m: nat)
    requires SortedDesc(s) && m <= |s|
    ensures forall x :: x in multiset(s[m..]) ==> forall i :: 0 <= i < |s[..m]| ==> s[..m][i] >= x
  {
    forall x | x in multiset(s[m..])
      ensures forall i :: 0 <= i < |s[..m]| ==> s[..m][i] >= x
    {
      var j :| 0 <= j < |s[m..]| && s[m..][j] == x;
      assert s[m + j] == x;
    }
  }

  /** The top-K depends only on the multiset of the values, not on their order. */
  lemma TopPerm(s: seq<int>, t: seq<int>, k: nat)
    requires multiset(s) == multiset(t)
    ensures TopValues(s, k) == TopValues(t, k)
  {
    SortDescSorted(s);
    SortDescSorted(t);
    SortedUnique(SortDesc(s), SortDesc(t));
    assert |s| == |multiset(s)| == |multiset(t)| == |t|;
  }

  /** Selecting the top-K of a top-K list changes nothing. */
  lemma TopIdempotent(s: seq<int>, k: nat)
    ensures TopValues(TopValues(s, k), k) == TopValues(s, k)
  {
    TopValuesMeaning(s, k);
    SortDescOfSorted(TopValues(s, k));
  }

  lemma {:induction false} InsertPrefix(s: seq<int>, x: int, j: nat)
    requires j <= |s|
    ensures InsertDesc(s, x)[..j] == InsertDesc(s[..j], x)[..j]
    decreases |s|
  {
    if j > 0 {
      var p := s[..j];
      assert p[0] == s[0];
      if s[0] >= x {
        assert p[1..] == s[1..][..j - 1];
        InsertPrefix(s[1..], x, j - 1);
        var a := InsertDesc(s[1..], x);
        var b := InsertDesc(p[1..], x);
        assert InsertDesc(s, x) == [s[0]] + a;
        assert InsertDesc(p, x) == [s[0]] + b;
        assert ([s[0]] + a)[..j] == [s[0]] + a[..j - 1];
        assert ([s[0]] + b)[..j] == [s[0]] + b[..j - 1];
      } else {
        assert InsertDesc(s, x) == [x] + s;
        assert InsertDesc(p, x) == [x] + p;
        assert ([x] + s)[..j] == [x] + s[..j - 1];
        assert ([x] + p)[..j] == [x] + p[..j - 1];
      }
    }
  }

  /** Adding one value to the input moves the top-K by exactly one Step. */
  lemma TopSnoc(s: seq<int>, x: int, k: nat)
    ensures TopValues(s + [x], k) == Step(TopValues(s, k), x, k)
  {
    assert (s + [x])[..|s|] == s;
    var t := SortDesc(s);
    if Min(k, |s| + 1) <= |s| {
      InsertPrefix(t, x, k);
    } else {
      assert t[..|s|] == t;
    }
  }

  /** Pre-reducing a prefix to its top-K does not change the top-K of the whole. */
  lemma {:induction false} TopAbsorb(a: seq<int>, b: seq<int>, k: nat)
    ensures TopValues(TopValues(a, k) + b, k) == TopValues(a + b, k)
    decreases |b|
  {
    if b == [] {
      assert TopValues(a, k) + b == TopValues(a, k);
      assert a + b == a;
      TopIdempotent(a, k);
    } else {
      var b' := b[..|b| - 1];
      var x := b[|b| - 1];
      assert b == b' + [x];
      assert TopValues(a, k) + b == (TopValues(a, k) + b') + [x];
      assert a + b == (a + b') + [x];
      TopAbsorb(a, b', k);
      TopSnoc(TopValues(a, k) + b', x, k);
      TopSnoc(a + b', x, k);
    }
  }

  /** Top-K of two top-K lists is the top-K of the two inputs together. */
  lemma TopOfTops(a: seq<int>, b: seq<int>, k: nat)
    ensures TopValues(TopValues(a, k) + TopValues(b, k), k) == TopValues(a + b, k)
  {
    TopAbsorb(a, TopValues(b, k), k);
    TopPerm(a + TopValues(b, k), TopValues(b, k) + a, k);
    TopAbsorb(b, a, k);
    TopPerm(b + a, a + b, k);
  }

  // ---------------------------------------------------------------------------
  // One step of a bounded top-K list, in the three cases the heap distinguishes

  /** Below capacity the new value is simply added. */
  lemma StepGrows(t: seq<int>, x: int, k: nat)
    requires |t| < k
    ensures multiset(Step(t, x, k)) == multiset(t) + multiset{x}
    ensures |Step(t, x, k)| == |t| + 1
  {
    assert InsertDesc(t, x)[..|t| + 1] == InsertDesc(t, x);
  }

  lemma {:induction false} InsertAboveLast(s: seq<int>, x: int)
    requires s != [] && x > s[|s| - 1]
    ensures InsertDesc(s, x) == InsertDesc(s[..|s| - 1], x) + [s[|s| - 1]]
    decreases |s|
  {
    var init := s[..|s| - 1];
    if s[0] >= x {
      assert |s| > 1;
      assert s[1..][..|s[1..]| - 1] == init[1..];
      InsertAboveLast(s[1..], x);
      assert InsertDesc(s, x) == [s[0]] + InsertDesc(s[1..], x);
      assert InsertDesc(init, x) == [init[0]] + InsertDesc(init[1..], x);
    } else if init == [] {
      assert s == [s[0]];
    } else {
      assert InsertDesc(init, x) == [x] + init;
      assert s == init + [s[|s| - 1]];
    }
  }

  lemma {:induction false} InsertBelowAll(s: seq<int>, x: int)
    requires forall i :: 0 <= i < |s| ==> s[i] >= x
    ensures InsertDesc(s, x) == s + [x]
    decreases |s|
  {
    if s != [] {
      InsertBelowAll(s[1..], x);
    }
  }

  /** At capacity, a value above the minimum replaces the minimum. */
  lemma StepReplacesMin(t: seq<int>, x: int, k: nat)
    requires |t| == k > 0 && x > t[k - 1]
    ensures multiset(Step(t, x, k)) == multiset(t) - multiset{t[k - 1]} + multiset{x}
    ensures |Step(t, x, k)| == k
  {
    InsertAboveLast(t, x);
    var r := InsertDesc(t[..k - 1], x);
    assert Step(t, x, k) == r;
    assert t == t[..k - 1] + [t[k - 1]];
    assert multiset(t) - multiset{t[k - 1]} == multiset(t[..k - 1]);
  }

  /** At capacity, a value not above the minimum is discarded. */
  lemma StepDiscards(t: seq<int>, x: int, k: nat)
    requires SortedDesc(t)
    requires |t| == k && (k == 0 || x <= t[k - 1])
    ensures Step(t, x, k) == t
  {
    InsertBelowAll(t, x);
    assert (t + [x])[..k] == t;
  }

  // ---------------------------------------------------------------------------
  // Records: values, their multisets, and the stable selection of nlargest

  lemma ValuesAppend(a: seq<Record>, b: seq<Record>)
    ensures Values(a + b) == Values(a) + Values(b)
  {
  }

  /** Permuting records permutes their values. */
  lemma {:induction false} ValuesPerm(s: seq<Record>, t: seq<Record>)
    requires multiset(s) == multiset(t)
    ensures multiset(Values(s)) == multiset(Values(t))
    decreases |s|
  {
    if s == [] {
      assert |t| == |multiset(t)| == 0;
    } else {
      var n := |s| - 1;
      assert s[n] in multiset(t);
      var i :| 0 <= i < |t| && t[i] == s[n];
      RemoveAt(s, n);
      RemoveAt(t, i);
      ValuesPerm(s[..n] + s[n + 1..], t[..i] + t[i + 1..]);
      ValuesRemove(s, n);
      ValuesRemove(t, i);
    }
  }

  /** Removing the record at `i` removes its value from the values. */
  lemma ValuesRemove(t: seq<Record>, i: nat)
    requires i < |t|
    ensures multiset(Values(t)) == multiset(Values(t[..i] + t[i + 1..])) + multiset{t[i].recordValue}
  {
    var v := Values(t);
    assert Values(t[..i] + t[i + 1..]) == v[..i] + v[i + 1..];
    assert v == v[..i] + [v[i]] + v[i + 1..];
  }

  lemma ValuesUpdate(s: seq<Record>, i: nat, r: Record)
    requires i < |s|
    ensures Values(s[i := r]) == Values(s)[i := r.recordValue]
  {
  }

  /** A sub-multiset of records has a sub-multiset of values. */
  lemma ValuesSub(s: seq<Record>, t: seq<Record>) returns (rest: seq<Record>)
    requires multiset(s) <= multiset(t)
    ensures multiset(t) == multiset(s) + multiset(rest)
    ensures multiset(Values(t)) == multiset(Values(s)) + multiset(Values(rest))
  {
    rest := Complement(s, t);
    ValuesPerm(t, s + rest);
    ValuesAppend(s, rest);
  }

  /** Insert a record after every record whose value is at least its value. */
  function InsertByValue(rs: seq<Record>, r: Record): (q: seq<Record>)
    ensures multiset(q) == multiset(rs) + multiset{r}
    ensures Values(q) == InsertDesc(Values(rs), r.recordValue)
  {
    if rs == [] then [r]
    else if rs[0].recordValue >= r.recordValue then
      var tail := InsertByValue(rs[1..], r);
      assert rs == [rs[0]] + rs[1..];
      InsertAfterHead(rs, r, tail);
      [rs[0]] + tail
    else
      InsertBeforeHead(rs, r);
      [r] + rs
  }

  /** Keeping the head in front of a correct insertion into the tail is a correct insertion. */
  lemma InsertAfterHead(rs: seq<Record>, r: Record, tail: seq<Record>)
    requires rs != [] && rs[0].recordValue >= r.recordValue
    requires Values(tail) == InsertDesc(Values(rs[1..]), r.recordValue)
    ensures Values([rs[0]] + tail) == InsertDesc(Values(rs), r.recordValue)
  {
    var vs := Values(rs);
    calc {
      Values([rs[0]] + tail);
      { ValuesAppend([rs[0]], tail); }
      [rs[0].recordValue] + Values(tail);
      { assert vs[1..] == Values(rs[1..]); }
      [vs[0]] + InsertDesc(vs[1..], r.recordValue);
      InsertDesc(vs, r.recordValue);
    }
  }

  /** A record larger than the head goes in front. */
  lemma InsertBeforeHead(rs: seq<Record>, r: Record)
    requires rs != [] && rs[0].recordValue < r.recordValue
    ensures Values([r] + rs) == InsertDesc(Values(rs), r.recordValue)
  {
    ValuesAppend([r], rs);
  }

  /**
   * `sorted(rs, key=value, reverse=True)`: a stable insertion sort, so records
   * with equal values keep their input order.
   */
  function SortByValue(rs: seq<Record>): (q: seq<Record>)
    ensures |q| == |rs|
    ensures multiset(q) == multiset(rs)
    ensures Values(q) == SortDesc(Values(rs))
  {
    if rs == [] then []
    else
      var init := rs[..|rs| - 1];
      assert rs == init + [rs[|rs| - 1]];
      ValuesAppend(init, [rs[|rs| - 1]]);
      assert Values(rs)[..|rs| - 1] == Values(init);
      InsertByValue(SortByValue(init), rs[|rs| - 1])
  }

  /**
   * `heapq.nlargest(n, rs, key=lambda x: x.record_value)`, which Python
   * documents as `sorted(rs, key=..., reverse=True)[:n]`.
   */
  function NLargest(n: int, rs: seq<Record>): seq<Record>
  {
    if n <= 0 then [] else SortByValue(rs)[..Min(n, |rs|)]
  }

  /**
   * nlargest keeps `min(n, |rs|)` of the given records and their values are
   * exactly the reference top-K of the input values.
   */
  lemma NLargestMeaning(n: int, rs: seq<Record>)
    ensures |NLargest(n, rs)| == Min(Cap(n), |rs|)
    ensures multiset(NLargest(n, rs)) <= multiset(rs)
    ensures Values(NLargest(n, rs)) == TopValues(Values(rs), Cap(n))
  {
    if n > 0 {
      var q := SortByValue(rs);
      PrefixSub(q, Min(n, |rs|));
      NLargestValues(n, rs);
    } else {
      assert TopValues(Values(rs), 0) == [];
    }
  }

  lemma NLargestValues(n: int, rs: seq<Record>)
    requires n > 0
    ensures Values(NLargest(n, rs)) == TopValues(Values(rs), n)
  {
    var q := SortByValue(rs);
    var m := Min(n, |rs|);
    assert NLargest(n, rs) == q[..m];
    assert Values(q[..m]) == Values(q)[..m];
  }

  lemma PrefixSub<T>(q: seq<T>, m: nat)
    requires m <= |q|
    ensures multiset(q[..m]) <= multiset(q)
  {
    assert q == q[..m] + q[m..];
  }

  /**
   * A selection whose values are the reference top-K dominates what it leaves
   * out: every chosen record's value is at least that of every record not chosen.
   */
  lemma SelectionDominates(sel: seq<Record>, all: seq<Record>, k: nat)
    requires multiset(sel) <= multiset(all)
    requires Values(sel) == TopValues(Values(all), k)
    ensures forall a, b :: a in sel && b in multiset(all) - multiset(sel) ==> a.recordValue >= b.recordValue
  {
    var rest := ValuesSub(sel, all);
    forall a, b | a in sel && b in multiset(all) - multiset(sel)
      ensures a.recordValue >= b.recordValue
    {
      assert b in multiset(rest);
      PairDominates(sel, all, rest, k, a, b);
    }
  }

  /** One selected record against one left-out record. */
  lemma PairDominates(sel: seq<Record>, all: seq<Record>, rest: seq<Record>, k: nat, a: Record, b: Record)
    requires Values(sel) == TopValues(Values(all), k)
    requires multiset(Values(all)) == multiset(Values(sel)) + multiset(Values(rest))
    requires a in sel && b in multiset(rest)
    ensures a.recordValue >= b.recordValue
  {
    TopValuesMeaning(Values(all), k);
    var _ := ValueOfMember(rest, b);
    assert b.recordValue in multiset(Values(all)) - multiset(Values(sel));
    var i := ValueOfMember(sel, a);
    assert Values(sel)[i] >= b.recordValue;
  }

  /** A member's value is among the values, at the member's own index. */
  lemma ValueOfMember(rs: seq<Record>, r: Record) returns (i: nat)
    requires r in rs
    ensures i < |rs| && rs[i] == r && Values(rs)[i] == r.recordValue
    ensures r.recordValue in multiset(Values(rs))
  {
    i :| 0 <= i < |rs| && rs[i] == r;
    assert Values(rs)[i] == r.recordValue;
  }

  /** When the selection may hold every valid record, it holds all of them. */
  lemma SelectionTakesAll(sel: seq<Record>, all: seq<Record>, k: nat)
    requires multiset(sel) <= multiset(all)
    requires Values(sel) == TopValues(Values(all), k)
    requires k >= |all|
    ensures multiset(sel) == multiset(all)
  {
    TopValuesMeaning(Values(all), k);
    var rest := Complement(sel, all);
    assert |multiset(all)| == |multiset(sel)| + |multiset(rest)|;
    assert |rest| == 0;
  }
}
