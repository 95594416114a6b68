/** Small generic helpers shared by the other modules. */
module Util {

  datatype Option<+T> = None | Some(value: T)

  function Min(a: int, b: int): int
  {
    if a <= b then a else b
  }

  /** Concatenation of a sequence of sequences, in order (Python's repeated `extend`). */
  function Flatten<T>(ss: seq<seq<T>>): (r: seq<T>)
  {
    if ss == [] then [] else Flatten(ss[..|ss| - 1]) + ss[|ss| - 1]
  }

  lemma FlattenSnoc<T>(ss: seq<seq<T>>, s: seq<T>)
    ensures Flatten(ss + [s]) == Flatten(ss) + s
  {
    assert (ss + [s])[..|ss|] == ss;
  }

  lemma {:induction false} FlattenAppend<T>(a: seq<seq<T>>, b: seq<seq<T>>)
    ensures Flatten(a + b) == Flatten(a) + Flatten(b)
    decreases |b|
  {
    if b == [] {
      assert a + b == a;
    } else {
      var b' := b[..|b| - 1];
      assert a + b == (a + b') + [b[|b| - 1]];
      assert b == b' + [b[|b| - 1]];
      FlattenSnoc(a + b', b[|b| - 1]);
      FlattenSnoc(b', b[|b| - 1]);
      FlattenAppend(a, b');
    }
  }

  /** Flattening only depends on the multiset of the pieces, up to a permutation of the result. */
  lemma {:induction false} FlattenPermutation<T>(ps: seq<seq<T>>, qs: seq<seq<T>>)
    requires multiset(ps) == multiset(qs)
    ensures multiset(Flatten(ps)) == multiset(Flatten(qs))
    decreases |ps|
  {
    if ps == [] {
      assert |qs| == |multiset(qs)| == 0;
    } else {
      var n := |ps| - 1;
      assert ps[n] in multiset(qs);
      var i :| 0 <= i < |qs| && qs[i] == ps[n];
      RemoveAt(ps, n);
      RemoveAt(qs, i);
      FlattenPermutation(ps[..n] + ps[n + 1..], qs[..i] + qs[i + 1..]);
      FlattenRemove(ps, n);
      FlattenRemove(qs, i);
    }
  }

  /** Removing the piece at `i` removes its elements from the flattening. */
  lemma FlattenRemove<T>(qs: seq<seq<T>>, i: nat)
    requires i < |qs|
    ensures multiset(Flatten(qs)) == multiset(Flatten(qs[..i] + qs[i + 1..])) + multiset(qs[i])
  {
    var pre, post := qs[..i], qs[i + 1..];
    SplitAt(qs, i);
    FlattenAppend(pre + [qs[i]], post);
    FlattenSnoc(pre, qs[i]);
    FlattenAppend(pre, post);
    var x, y := Flatten(pre), Flatten(post);
    assert Flatten(qs) == x + qs[i] + y;
    assert multiset(x + qs[i] + y) == multiset(x) + multiset(qs[i]) + multiset(y);
  }

  /** Every finite multiset is the multiset of some sequence. */
  lemma {:induction false} SeqOf<T>(m: multiset<T>) returns (s: seq<T>)
    ensures multiset(s) == m
    decreases |m|
  {
    if |m| == 0 {
      s := [];
    } else {
      var x :| x in m;
      var s' := SeqOf(m - multiset{x});
      s := s' + [x];
    }
  }

  /** What is left of `t` once the sub-multiset `s` is taken out, as a sequence. */
  lemma Complement<T>(s: seq<T>, t: seq<T>) returns (rest: seq<T>)
    requires multiset(s) <= multiset(t)
    ensures multiset(t) == multiset(s) + multiset(rest)
  {
    rest := SeqOf(multiset(t) - multiset(s));
  }

  /** Overwriting one slot takes its old element out of the multiset and puts the new one in. */
  lemma UpdateMultiset<T>(s: seq<T>, i: nat, x: T)
    requires i < |s|
    ensures multiset(s[i := x]) == multiset(s) - multiset{s[i]} + multiset{x}
  {
    assert s == s[..i] + [s[i]] + s[i + 1..];
    assert s[i := x] == s[..i] + [x] + s[i + 1..];
  }

  /** Deleting one slot takes its element out of the multiset. */
  lemma RemoveAt<T>(s: seq<T>, i: nat)
    requires i < |s|
    ensures multiset(s[..i] + s[i + 1..]) == multiset(s) - multiset{s[i]}
  {
    assert s == s[..i] + [s[i]] + s[i + 1..];
  }

  /** Cutting a sequence in two splits its multiset in two. */
  lemma SplitMultiset<T>(s: seq<T>, m: nat)
    requires m <= |s|
    ensures multiset(s) == multiset(s[..m]) + multiset(s[m..])
  {
    assert s == s[..m] + s[m..];
  }

  /** A sequence is its prefix before `i`, its element at `i` and its suffix after `i`. */
  lemma SplitAt<T>(s: seq<T>, i: nat)
    requires i < |s|
    ensures s == (s[..i] + [s[i]]) + s[i + 1..]
  {
  }
}
