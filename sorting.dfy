/** Python's `list.sort(key=...)`: a stable sort into ascending key order. */
module Sorting {

  /** Ascending key order along the list. */
  predicate Sorted<T>(s: seq<T>, key: T -> int) {
    forall i, j :: 0 <= i < j < |s| ==> key(s[i]) <= key(s[j])
  }

  /** `[x]` when the key of `x` is `v`, otherwise nothing. */
  function IfKey<T>(x: T, key: T -> int, v: int): seq<T> {
    if key(x) == v then [x] else []
  }

  /** The elements of `s` whose key is `v`, in their order in `s`. */
  function WithKey<T>(s: seq<T>, key: T -> int, v: int): seq<T> {
    if s == [] then [] else WithKey(s[..|s| - 1], key, v) + IfKey(s[|s| - 1], key, v)
  }

  /** Stability: elements of equal key appear in the same relative order. */
  ghost predicate SameOrderPerKey<T>(s: seq<T>, t: seq<T>, key: T -> int) {
    forall v :: WithKey(s, key, v) == WithKey(t, key, v)
  }

  /** Puts `x` after the last element of the sorted list `s` whose key is at
      most key(x): where a stable sort places the later of two equal keys. */
  function Insert<T>(s: seq<T>, x: T, key: T -> int): seq<T> {
    if s == [] then [x]
    else if key(x) < key(s[|s| - 1]) then Insert(s[..|s| - 1], x, key) + [s[|s| - 1]]
    else s + [x]
  }

  /** The stable sort, as insertion of each element in turn. */
  function SortByKey<T>(s: seq<T>, key: T -> int): seq<T> {
    if s == [] then [] else Insert(SortByKey(s[..|s| - 1], key), s[|s| - 1], key)
  }

  lemma WithKeySnoc<T>(p: seq<T>, y: T, key: T -> int, v: int)
    ensures WithKey(p + [y], key, v) == WithKey(p, key, v) + IfKey(y, key, v)
  {
    assert (p + [y])[..|p|] == p;
  }

  lemma {:induction false} InsertCount<T>(s: seq<T>, x: T, key: T -> int)
    ensures multiset(Insert(s, x, key)) == multiset(s) + multiset{x}
  {
    if s != [] && key(x) < key(s[|s| - 1]) {
      InsertCount(s[..|s| - 1], x, key);
      assert s == s[..|s| - 1] + [s[|s| - 1]];
    }
  }

  lemma {:induction false} InsertSorted<T>(s: seq<T>, x: T, key: T -> int)
    requires Sorted(s, key)
    ensures Sorted(Insert(s, x, key), key)
  {
    if s != [] && key(x) < key(s[|s| - 1]) {
      var p, y := s[..|s| - 1], s[|s| - 1];
      InsertSorted(p, x, key);
      InsertCount(p, x, key);
      var q := Insert(p, x, key);
      forall i | 0 <= i < |q| ensures key(q[i]) <= key(y) {
        assert q[i] in multiset(q);
        if q[i] != x {
          assert q[i] in multiset(p);
          var k :| 0 <= k < |p| && p[k] == q[i];
          assert s[k] == p[k];
        }
      }
      assert Insert(s, x, key) == q + [y];
    }
  }

  lemma {:induction false} InsertWithKey<T>(s: seq<T>, x: T, key: T -> int, v: int)
    ensures WithKey(Insert(s, x, key), key, v) == WithKey(s, key, v) + IfKey(x, key, v)
  {
    if s == [] {
      WithKeySnoc([], x, key, v);
      assert [] + [x] == [x];
    } else if key(x) < key(s[|s| - 1]) {
      var p, y := s[..|s| - 1], s[|s| - 1];
      InsertWithKey(p, x, key, v);
      assert s == p + [y];
      ShiftWithKey(p, y, x, key, v);
    } else {
      WithKeySnoc(s, x, key, v);
    }
  }

  /** The step of InsertWithKey where `x` moves in front of a larger last element `y`. */
  lemma ShiftWithKey<T>(p: seq<T>, y: T, x: T, key: T -> int, v: int)
    requires key(x) < key(y)
    requires WithKey(Insert(p, x, key), key, v) == WithKey(p, key, v) + IfKey(x, key, v)
    ensures WithKey(Insert(p, x, key) + [y], key, v) == WithKey(p + [y], key, v) + IfKey(x, key, v)
  {
    WithKeySnoc(Insert(p, x, key), y, key, v);
    WithKeySnoc(p, y, key, v);
    SwapEnds(WithKey(p, key, v), IfKey(x, key, v), IfKey(y, key, v));
  }

  lemma SwapEnds<T>(a: seq<T>, xs: seq<T>, ys: seq<T>)
    requires xs == [] || ys == []
    ensures (a + xs) + ys == (a + ys) + xs
  {
    if xs == [] {
      assert a + xs == a;
    } else {
      assert a + ys == a;
    }
  }

  /** The sort orders the list by ascending key. */
  lemma {:induction false} SortSorted<T>(s: seq<T>, key: T -> int)
    ensures Sorted(SortByKey(s, key), key)
  {
    if s != [] {
      SortSorted(s[..|s| - 1], key);
      InsertSorted(SortByKey(s[..|s| - 1], key), s[|s| - 1], key);
    }
  }

  /** The sorted list is a permutation of the input: nothing added or dropped. */
  lemma {:induction false} SortPermutes<T>(s: seq<T>, key: T -> int)
    ensures multiset(SortByKey(s, key)) == multiset(s)
  {
    if s != [] {
      var p, x := s[..|s| - 1], s[|s| - 1];
      var q := SortByKey(p, key);
      calc {
        multiset(SortByKey(s, key));
        multiset(Insert(q, x, key));
        { InsertCount(q, x, key); }
        multiset(q) + multiset{x};
        { SortPermutes(p, key); }
        multiset(p) + multiset{x};
        { assert s == p + [x]; }
        multiset(s);
      }
    }
  }

  /** The sort is stable: elements of equal key keep their input order. */
  lemma {:induction false} SortStable<T>(s: seq<T>, key: T -> int, v: int)
    ensures WithKey(SortByKey(s, key), key, v) == WithKey(s, key, v)
  {
    if s != [] {
      SortStable(s[..|s| - 1], key, v);
      InsertWithKey(SortByKey(s[..|s| - 1], key), s[|s| - 1], key, v);
    }
  }

  lemma {:induction false} WithKeyHas<T>(s: seq<T>, key: T -> int, v: int, x: T)
    ensures x in WithKey(s, key, v) <==> x in s && key(x) == v
  {
    if s != [] {
      var p := s[..|s| - 1];
      WithKeyHas(p, key, v, x);
      assert s == p + [s[|s| - 1]];
    }
  }

  lemma LastIsLargest<T>(t: seq<T>, key: T -> int, i: int)
    requires Sorted(t, key) && 0 <= i < |t|
    ensures key(t[i]) <= key(t[|t| - 1])
  {
  }

  /** Two non-empty sorted lists with the same elements per key end with equal keys. */
  lemma SameLastKey<T>(t: seq<T>, u: seq<T>, key: T -> int)
    requires Sorted(t, key) && Sorted(u, key) && t != [] && u != []
    requires WithKey(t, key, key(t[|t| - 1])) == WithKey(u, key, key(t[|t| - 1]))
    requires WithKey(t, key, key(u[|u| - 1])) == WithKey(u, key, key(u[|u| - 1]))
    ensures key(t[|t| - 1]) == key(u[|u| - 1])
  {
    var x, y := t[|t| - 1], u[|u| - 1];
    WithKeyHas(u, key, key(y), y);
    WithKeyHas(t, key, key(y), y);
    WithKeyHas(t, key, key(x), x);
    WithKeyHas(u, key, key(x), x);
    var i :| 0 <= i < |t| && t[i] == y;
    var j :| 0 <= j < |u| && u[j] == x;
    LastIsLargest(t, key, i);
    LastIsLargest(u, key, j);
  }

  lemma SortedPrefix<T>(t: seq<T>, key: T -> int)
    requires Sorted(t, key) && t != []
    ensures Sorted(t[..|t| - 1], key)
  {
  }

  /** A sorted, stable ordering is unique: two lists sorted by key with the
      same elements, in the same order, for every key are the same list. So
      SortByKey describes every stable sort, whatever algorithm performs it. */
  lemma {:induction false} StableSortUnique<T>(t: seq<T>, u: seq<T>, key: T -> int)
    requires Sorted(t, key) && Sorted(u, key)
    requires SameOrderPerKey(t, u, key)
    ensures t == u
    decreases |t|
  {
    if t == [] || u == [] {
      if t != [] {
        assert WithKey(t, key, key(t[0])) == WithKey(u, key, key(t[0]));
        WithKeyHas(t, key, key(t[0]), t[0]);
        WithKeyHas(u, key, key(t[0]), t[0]);
      }
      if u != [] {
        assert WithKey(t, key, key(u[0])) == WithKey(u, key, key(u[0]));
        WithKeyHas(u, key, key(u[0]), u[0]);
        WithKeyHas(t, key, key(u[0]), u[0]);
      }
    } else {
      var x, y := t[|t| - 1], u[|u| - 1];
      var t', u' := t[..|t| - 1], u[..|u| - 1];
      assert t == t' + [x] && u == u' + [y];
      assert WithKey(t, key, key(x)) == WithKey(u, key, key(x));
      assert WithKey(t, key, key(y)) == WithKey(u, key, key(y));
      SameLastKey(t, u, key);
      var m := key(x);
      LastOfGroup(t', x, u', y, key);
      forall v ensures WithKey(t', key, v) == WithKey(u', key, v) {
        assert WithKey(t, key, v) == WithKey(u, key, v);
        WithKeySnoc(t', x, key, v);
        WithKeySnoc(u', y, key, v);
        if m != v {
          assert IfKey(x, key, v) == [] && IfKey(y, key, v) == [];
          assert WithKey(t', key, v) + [] == WithKey(t', key, v);
          assert WithKey(u', key, v) + [] == WithKey(u', key, v);
        } else {
          var a, b := WithKey(t', key, v), WithKey(u', key, v);
          assert a + [x] == b + [y];
          assert (a + [x])[..|a|] == a && (b + [y])[..|b|] == b;
        }
      }
      SortedPrefix(t, key);
      SortedPrefix(u, key);
      StableSortUnique(t', u', key);
    }
  }

  /** The last elements of two lists with equal final keys and equal groups for that key coincide. */
  lemma LastOfGroup<T>(t': seq<T>, x: T, u': seq<T>, y: T, key: T -> int)
    requires key(x) == key(y)
    requires WithKey(t' + [x], key, key(x)) == WithKey(u' + [y], key, key(x))
    ensures x == y
  {
    WithKeySnoc(t', x, key, key(x));
    WithKeySnoc(u', y, key, key(x));
    var g := WithKey(t' + [x], key, key(x));
    assert g[|g| - 1] == x;
  }

  // -------------------------------------------- steps of an insertion loop

  /** Sorting one more element is inserting it into the sorted prefix. */
  lemma SortByKeyStep<T>(s: seq<T>, key: T -> int, i: int)
    requires 0 <= i < |s|
    ensures SortByKey(s[..i + 1], key) == Insert(SortByKey(s[..i], key), s[i], key)
  {
    assert s[..i + 1][..i] == s[..i];
  }

  /** Insertion sort in place: each element moves down past the elements of
      strictly larger key, so equal keys keep their order. */
  method InsertionSort<T>(a: array<T>, key: T -> int)
    modifies a
    ensures a[..] == SortByKey(old(a[..]), key)
  {
    ghost var s := a[..];
    var i := 0;
    assert s[..0] == [] && s[0..] == s;
    while i < a.Length
      invariant 0 <= i <= a.Length == |s|
      invariant a[..] == SortByKey(s[..i], key) + s[i..]
    {
      ghost var b := a[..];
      SortNext(s, key, i, b);
      InsertAt(a, i, key);
      i := i + 1;
    }
    assert s[..i] == s && s[i..] == [];
  }

  /** The state of InsertionSort's loop before and after one more insertion. */
  lemma SortNext<T>(s: seq<T>, key: T -> int, i: int, b: seq<T>)
    requires 0 <= i < |s| && b == SortByKey(s[..i], key) + s[i..]
    ensures |b| == |s|
    ensures Insert(b[..i], b[i], key) + b[i + 1..] == SortByKey(s[..i + 1], key) + s[i + 1..]
  {
    var p := SortByKey(s[..i], key);
    SortedLength(s[..i], key);
    assert b[..i] == p && b[i] == s[i] && b[i + 1..] == s[i + 1..];
    SortByKeyStep(s, key, i);
  }

  /** The sort keeps the length. */
  lemma SortedLength<T>(s: seq<T>, key: T -> int)
    ensures |SortByKey(s, key)| == |s|
  {
    SortPermutes(s, key);
    assert |multiset(SortByKey(s, key))| == |multiset(s)|;
  }

  /** One pass of the insertion sort: `a[i]` moves into the prefix before it. */
  method InsertAt<T>(a: array<T>, i: int, key: T -> int)
    requires 0 <= i < a.Length
    modifies a
    ensures a[..] == Insert(old(a[..])[..i], old(a[..])[i], key) + old(a[..])[i + 1..]
  {
    var x := a[i];
    ghost var p, r := a[..i], a[i + 1..];
    var j := OpenGap(a, i, key);
    ghost var b := a[..];
    a[j] := x;
    assert a[..] == b[j := x];
    Place(b, p, r, x, key, j);
  }

  /** The shifting loop of InsertAt: the elements before `i` whose key is
      larger than that of `a[i]` move up one place, leaving a gap at `j`. */
  method OpenGap<T>(a: array<T>, i: int, key: T -> int) returns (j: int)
    requires 0 <= i < a.Length
    modifies a
    ensures 0 <= j <= i
    ensures a[..j] == old(a[..i])[..j]
    ensures a[j + 1..] == old(a[..i])[j..] + old(a[i + 1..])
    ensures j == 0 || key(old(a[..i])[j - 1]) <= key(old(a[i]))
    ensures forall k :: j <= k < i ==> key(old(a[i])) < key(old(a[..i])[k])
  {
    var x := a[i];
    ghost var p, r := a[..i], a[i + 1..];
    j := i;
    while j > 0 && key(x) < key(a[j - 1])
      invariant 0 <= j <= i
      invariant a[..j] == p[..j]
      invariant a[j + 1..] == p[j..] + r
      invariant forall k :: j <= k < i ==> key(x) < key(p[k])
    {
      ghost var b := a[..];
      a[j] := a[j - 1];
      assert a[..] == b[j := b[j - 1]];
      ShiftStep(b, p, r, j);
      j := j - 1;
    }
    assert j == 0 || a[j - 1] == p[j - 1];
  }

  /** The state of InsertAt's loop after one element moves up into the gap. */
  lemma ShiftStep<T>(b: seq<T>, p: seq<T>, r: seq<T>, j: int)
    requires 0 < j <= |p| && |b| == |p| + 1 + |r|
    requires b[..j] == p[..j] && b[j + 1..] == p[j..] + r
    ensures b[j := b[j - 1]][..j - 1] == p[..j - 1]
    ensures b[j := b[j - 1]][j..] == p[j - 1..] + r
  {
    var c := b[j := b[j - 1]];
    assert b[j - 1] == p[j - 1];
    assert c[j..] == [p[j - 1]] + b[j + 1..];
    assert p[j - 1..] == [p[j - 1]] + p[j..];
  }

  /** Filling the gap at `j` with `x` completes the insertion. */
  lemma Place<T>(b: seq<T>, p: seq<T>, r: seq<T>, x: T, key: T -> int, j: int)
    requires 0 <= j <= |p| && |b| == |p| + 1 + |r|
    requires b[..j] == p[..j] && b[j + 1..] == p[j..] + r
    requires j == 0 || key(p[j - 1]) <= key(x)
    requires forall k :: j <= k < |p| ==> key(x) < key(p[k])
    ensures b[j := x] == Insert(p, x, key) + r
  {
    var c, ins := b[j := x], p[..j] + [x] + p[j..];
    forall k | 0 <= k < |c| ensures c[k] == (ins + r)[k] {
      if k < j {
        assert c[k] == b[..j][k] == p[k];
      } else if j < k <= |p| {
        assert c[k] == b[j + 1..][k - j - 1] == p[k - 1];
      } else if k > |p| {
        assert c[k] == b[j + 1..][k - j - 1] == r[k - |p| - 1];
      }
    }
    assert c == ins + r;
    InsertGap(p, x, key, j);
  }

  /** Where Insert puts `x`: after the last element whose key is at most
      key(x), when every element after that position has a larger key. */
  lemma {:induction false} InsertGap<T>(p: seq<T>, x: T, key: T -> int, j: int)
    requires 0 <= j <= |p|
    requires j == 0 || key(p[j - 1]) <= key(x)
    requires forall k :: j <= k < |p| ==> key(x) < key(p[k])
    ensures Insert(p, x, key) == p[..j] + [x] + p[j..]
    decreases |p|
  {
    if j < |p| {
      var p', y := p[..|p| - 1], p[|p| - 1];
      assert key(x) < key(y);
      InsertGap(p', x, key, j);
      assert p'[..j] == p[..j];
      assert p'[j..] + [y] == p[j..];
    } else {
      assert p[..j] == p && p[j..] == [];
    }
  }
}
