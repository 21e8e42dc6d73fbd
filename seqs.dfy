/** Generic facts about sequences used by several modules. */
module Seqs {

  /** No element occurs twice. */
  ghost predicate Distinct<T>(s: seq<T>) {
    forall i, j :: 0 <= i < j < |s| ==> s[i] != s[j]
  }

  /** The set of elements of a sequence. */
  ghost function Elems<T>(s: seq<T>): set<T> {
    set x | x in s
  }

  /** The elements of a non-empty sequence are its head and the elements of its tail. */
  lemma ElemsCons<T>(s: seq<T>)
    requires s != []
    ensures Elems(s) == {s[0]} + Elems(s[1..])
  {
    assert forall x :: x in s <==> x == s[0] || x in s[1..];
  }

  /** A non-empty sequence is distinct exactly when its head is not in its distinct tail. */
  lemma DistinctCons<T>(s: seq<T>)
    requires s != []
    ensures Distinct(s) <==> s[0] !in s[1..] && Distinct(s[1..])
  {
    var t := s[1..];
    if s[0] in t {
      var k :| 0 <= k < |t| && t[k] == s[0];
      assert s[0] == s[k + 1];
    }
    if Distinct(s) {
      forall i, j | 0 <= i < j < |t| ensures t[i] != t[j] {
        assert t[i] == s[i + 1] && t[j] == s[j + 1];
      }
    }
    if s[0] !in t && Distinct(t) {
      forall i, j | 0 <= i < j < |s| ensures s[i] != s[j] {
        assert s[j] == t[j - 1];
        if i > 0 { assert s[i] == t[i - 1]; }
      }
    }
  }

  /** A sequence has at most as many distinct elements as positions, and exactly as many
      precisely when no element repeats. */
  lemma {:induction false} DistinctCardinality<T>(s: seq<T>)
    ensures |Elems(s)| <= |s|
    ensures Distinct(s) <==> |Elems(s)| == |s|
  {
    if s != [] {
      var t := s[1..];
      DistinctCardinality(t);
      ElemsCons(s);
      DistinctCons(s);
      if s[0] in t {
        assert Elems(s) == Elems(t);
      } else {
        assert s[0] !in Elems(t);
        assert |Elems(s)| == |Elems(t)| + 1;
      }
    }
  }

  /** `xs` can be obtained from `ys` by deleting elements (order kept). */
  ghost predicate IsSubsequence<T>(xs: seq<T>, ys: seq<T>)
    decreases |ys|
  {
    if ys == [] then xs == []
    else
      (xs != [] && xs[|xs| - 1] == ys[|ys| - 1] && IsSubsequence(xs[..|xs| - 1], ys[..|ys| - 1]))
      || IsSubsequence(xs, ys[..|ys| - 1])
  }

  /** The concatenation of a list of lists, in order (Python's repeated `extend`). */
  function Flatten<T>(parts: seq<seq<T>>): seq<T> {
    if parts == [] then [] else Flatten(parts[..|parts| - 1]) + parts[|parts| - 1]
  }

  lemma FlattenSnoc<T>(parts: seq<seq<T>>, part: seq<T>)
    ensures Flatten(parts + [part]) == Flatten(parts) + part
  {
    assert (parts + [part])[..|parts|] == parts;
  }

  lemma {:induction false} FlattenAppend<T>(a: seq<seq<T>>, b: seq<seq<T>>)
    ensures Flatten(a + b) == Flatten(a) + Flatten(b)
    decreases |b|
  {
    if b == [] {
      assert a + b == a;
    } else {
      var b', last := b[..|b| - 1], b[|b| - 1];
      assert a + b == (a + b') + [last];
      assert b == b' + [last];
      calc {
        Flatten(a + b);
        { FlattenSnoc(a + b', last); }
        Flatten(a + b') + last;
        { FlattenAppend(a, b'); }
        (Flatten(a) + Flatten(b')) + last;
        Flatten(a) + (Flatten(b') + last);
        { FlattenSnoc(b', last); }
        Flatten(a) + Flatten(b);
      }
    }
  }

  /** `f` applied to every element, the results concatenated in order. */
  function ConcatMap<A, B>(f: A -> seq<B>, xs: seq<A>): seq<B> {
    if xs == [] then [] else ConcatMap(f, xs[..|xs| - 1]) + f(xs[|xs| - 1])
  }

  lemma ConcatMapSnoc<A, B>(f: A -> seq<B>, xs: seq<A>, x: A)
    ensures ConcatMap(f, xs + [x]) == ConcatMap(f, xs) + f(x)
  {
    assert (xs + [x])[..|xs|] == xs;
  }

  lemma {:induction false} ConcatMapAppend<A, B>(f: A -> seq<B>, a: seq<A>, b: seq<A>)
    ensures ConcatMap(f, a + b) == ConcatMap(f, a) + ConcatMap(f, b)
    decreases |b|
  {
    if b == [] {
      assert a + b == a;
    } else {
      var b', last := b[..|b| - 1], b[|b| - 1];
      assert a + b == (a + b') + [last];
      assert b == b' + [last];
      calc {
        ConcatMap(f, a + b);
        { ConcatMapSnoc(f, a + b', last); }
        ConcatMap(f, a + b') + f(last);
        { ConcatMapAppend(f, a, b'); }
        (ConcatMap(f, a) + ConcatMap(f, b')) + f(last);
        ConcatMap(f, a) + (ConcatMap(f, b') + f(last));
        { ConcatMapSnoc(f, b', last); }
        ConcatMap(f, a) + ConcatMap(f, b);
      }
    }
  }

  /** Removing the last element of `a` and an equal element of `b` keeps the multisets equal. */
  lemma MultisetRemoveAt<T>(a: seq<T>, b: seq<T>, k: nat)
    requires multiset(a) == multiset(b) && a != [] && k < |b| && b[k] == a[|a| - 1]
    ensures multiset(a[..|a| - 1]) == multiset(b[..k] + b[k + 1..])
  {
    var x, p, l, r := b[k], a[..|a| - 1], b[..k], b[k + 1..];
    assert a == p + [x];
    assert b == l + [x] + r;
    assert multiset(a) == multiset(p) + multiset{x};
    assert multiset(b) == multiset(l) + multiset{x} + multiset(r);
    assert multiset(p) == multiset(a) - multiset{x};
    assert multiset(l) + multiset(r) == multiset(b) - multiset{x};
    assert multiset(l + r) == multiset(l) + multiset(r);
  }

  /** If `a` and `b` hold the same elements, `b` can be cut around an occurrence of the last
      element of `a` so that the remaining pieces hold the same elements as the rest of `a`. */
  lemma MultisetRemove<T>(a: seq<T>, b: seq<T>) returns (l: seq<T>, r: seq<T>)
    requires multiset(a) == multiset(b) && a != []
    ensures b == l + [a[|a| - 1]] + r
    ensures multiset(a[..|a| - 1]) == multiset(l + r)
  {
    var x := a[|a| - 1];
    assert x in multiset(a);
    var k :| 0 <= k < |b| && b[k] == x;
    MultisetRemoveAt(a, b, k);
    l, r := b[..k], b[k + 1..];
    assert b == l + [x] + r;
  }

  /** The output of one element sits between those of the elements before and after it. */
  lemma ConcatMapMiddle<A, B>(f: A -> seq<B>, l: seq<A>, x: A, r: seq<A>)
    ensures ConcatMap(f, l + [x] + r) == ConcatMap(f, l) + f(x) + ConcatMap(f, r)
  {
    ConcatMapAppend(f, l + [x], r);
    ConcatMapSnoc(f, l, x);
  }

  /** Reordering the inputs reorders the concatenated outputs, and nothing more. */
  lemma {:induction false} ConcatMapPermutation<A, B>(f: A -> seq<B>, a: seq<A>, b: seq<A>)
    requires multiset(a) == multiset(b)
    ensures multiset(ConcatMap(f, a)) == multiset(ConcatMap(f, b))
    decreases |a|
  {
    if a != [] {
      var p, x := a[..|a| - 1], a[|a| - 1];
      var l, r := MultisetRemove(a, b);
      ConcatMapPermutation(f, p, l + r);
      calc {
        multiset(ConcatMap(f, b));
        { ConcatMapMiddle(f, l, x, r); }
        multiset(ConcatMap(f, l) + f(x) + ConcatMap(f, r));
        multiset(ConcatMap(f, l) + ConcatMap(f, r)) + multiset(f(x));
        { ConcatMapAppend(f, l, r); }
        multiset(ConcatMap(f, l + r)) + multiset(f(x));
        multiset(ConcatMap(f, p)) + multiset(f(x));
        multiset(ConcatMap(f, a));
      }
    }
  }

  /** A Python dict filled by assigning the pairs in order: `d[k] = v` for each `(k, v)`. */
  function ToMap<K, V>(pairs: seq<(K, V)>): map<K, V> {
    if pairs == [] then map[]
    else
      var last := pairs[|pairs| - 1];
      ToMap(pairs[..|pairs| - 1])[last.0 := last.1]
  }

  /** The keys are the keys assigned, and a key holds the value of its last assignment. */
  lemma {:induction false} ToMapLastWins<K, V>(pairs: seq<(K, V)>, k: K)
    ensures k in ToMap(pairs) <==> exists i :: 0 <= i < |pairs| && pairs[i].0 == k
    ensures forall i :: 0 <= i < |pairs| && pairs[i].0 == k && (forall j :: i < j < |pairs| ==> pairs[j].0 != k) ==>
      ToMap(pairs)[k] == pairs[i].1
  {
    if pairs != [] {
      var p, last := pairs[..|pairs| - 1], pairs[|pairs| - 1];
      ToMapLastWins(p, k);
      if last.0 != k {
        forall i | 0 <= i < |pairs| && pairs[i].0 == k ensures i < |p| && pairs[i] == p[i] { }
      }
    }
  }
}
