/** Sequence helpers shared by the model: distinctness, first occurrences,
    de-duplication in first-occurrence order, and removal of a set of elements. */
module Seqs {

  predicate NoDuplicates<T(==)>(s: seq<T>) {
    forall i, j :: 0 <= i < j < |s| ==> s[i] != s[j]
  }

  /** The index of the first occurrence of `x` in `s`. */
  function FirstIndex<T(==)>(s: seq<T>, x: T): (i: nat)
    requires x in s
    ensures i < |s| && s[i] == x && x !in s[..i]
  {
    if s[0] == x then 0
    else
      var j := FirstIndex(s[1..], x);
      assert s[..1 + j] == [s[0]] + s[1..][..j];
      1 + j
  }

  /** Every element of `r` occurs in `s`, and the elements of `r` come in the
      order of their first occurrences in `s`. */
  predicate FirstOccurrenceOrder<T(==)>(r: seq<T>, s: seq<T>) {
    (forall x :: x in r ==> x in s) &&
    forall i, j :: 0 <= i < j < |r| ==> r[i] in s && r[j] in s && FirstIndex(s, r[i]) < FirstIndex(s, r[j])
  }

  lemma FirstIndexOfDistinct<T>(s: seq<T>, k: nat)
    requires NoDuplicates(s) && k < |s|
    ensures FirstIndex(s, s[k]) == k
  {
  }

  /** The first occurrence of an element of a prefix is found within that prefix. */
  lemma FirstIndexInPrefix<T>(s: seq<T>, n: nat, x: T)
    requires n <= |s| && x in s[..n]
    ensures x in s && FirstIndex(s, x) == FirstIndex(s[..n], x)
  {
    var j := FirstIndex(s[..n], x);
    assert s[..n][..j] == s[..j];
    assert s[j] == x;
    FirstIndexUnique(s, x, j);
  }

  /** An occurrence with no earlier one is the first. */
  lemma FirstIndexUnique<T>(s: seq<T>, x: T, k: nat)
    requires k < |s| && s[k] == x && x !in s[..k]
    ensures FirstIndex(s, x) == k
  {
    var i := FirstIndex(s, x);
    if i < k {
      InPrefix(s, k, i);
      assert false;
    } else if k < i {
      InPrefix(s, i, k);
      assert false;
    }
  }

  lemma InPrefix<T>(s: seq<T>, n: int, i: int)
    requires 0 <= i < n <= |s|
    ensures s[i] in s[..n]
  {
    assert s[..n][i] == s[i];
  }

  /** The elements of `s` without repeats, each kept at its first occurrence:
      the iteration order of a set built by inserting the elements of `s` one by one. */
  function Dedup<T(==)>(s: seq<T>): seq<T>
  {
    if s == [] then []
    else
      var d := Dedup(s[..|s| - 1]);
      if s[|s| - 1] in d then d else d + [s[|s| - 1]]
  }

  lemma {:induction false} DedupMembers<T>(s: seq<T>)
    ensures forall x :: x in Dedup(s) ==> x in s
    ensures forall x :: x in s ==> x in Dedup(s)
  {
    if s != [] {
      var p := s[..|s| - 1];
      DedupMembers(p);
      assert s == p + [s[|s| - 1]];
    }
  }

  lemma {:induction false} DedupNoDuplicates<T>(s: seq<T>)
    ensures NoDuplicates(Dedup(s))
  {
    if s != [] {
      DedupNoDuplicates(s[..|s| - 1]);
    }
  }

  lemma {:induction false} DedupOrder<T>(s: seq<T>)
    ensures FirstOccurrenceOrder(Dedup(s), s)
  {
    if s != [] {
      var p := s[..|s| - 1];
      var x := s[|s| - 1];
      var d := Dedup(p);
      DedupOrder(p);
      DedupMembers(p);
      OrderInPrefix(d, s, |s| - 1);
      if x !in d {
        LastFirstIndex(s);
        forall i | 0 <= i < |d|
          ensures FirstIndex(s, d[i]) < FirstIndex(s, x)
        {
          assert d[i] in d;
          FirstIndexInPrefix(s, |s| - 1, d[i]);
        }
        OrderSnoc(d, x, s);
      }
    }
  }

  /** First-occurrence order with respect to a prefix carries over to the whole sequence. */
  lemma OrderInPrefix<T>(r: seq<T>, s: seq<T>, n: nat)
    requires n <= |s| && FirstOccurrenceOrder(r, s[..n])
    ensures FirstOccurrenceOrder(r, s)
  {
    forall i, j | 0 <= i < j < |r|
      ensures r[i] in s && r[j] in s && FirstIndex(s, r[i]) < FirstIndex(s, r[j])
    {
      FirstIndexInPrefix(s, n, r[i]);
      FirstIndexInPrefix(s, n, r[j]);
    }
    forall x | x in r ensures x in s {
      FirstIndexInPrefix(s, n, x);
    }
  }

  /** An element absent from all earlier positions first occurs last. */
  lemma LastFirstIndex<T>(s: seq<T>)
    requires s != [] && s[|s| - 1] !in s[..|s| - 1]
    ensures FirstIndex(s, s[|s| - 1]) == |s| - 1
  {
  }

  /** A sequence without repeats is its own de-duplication. */
  lemma {:induction false} DedupOfDistinct<T>(s: seq<T>)
    requires NoDuplicates(s)
    ensures Dedup(s) == s
  {
    if s != [] {
      var p := s[..|s| - 1];
      DedupOfDistinct(p);
      DedupMembers(p);
      assert s[|s| - 1] !in p;
      assert s == p + [s[|s| - 1]];
    }
  }

  /** Appending an element already present leaves the de-duplication unchanged;
      appending a new one adds it at the end. */
  lemma DedupSnoc<T>(s: seq<T>, x: T)
    ensures Dedup(s + [x]) == if x in s then Dedup(s) else Dedup(s) + [x]
  {
    assert (s + [x])[..|s + [x]| - 1] == s;
    DedupMembers(s);
  }

  /** The elements of `s` that do not occur in `bs`, in the order of `s`. */
  function Without<T(==)>(s: seq<T>, bs: seq<T>): seq<T>
  {
    if s == [] then []
    else
      var w := Without(s[..|s| - 1], bs);
      if s[|s| - 1] in bs then w else w + [s[|s| - 1]]
  }

  lemma {:induction false} WithoutMembers<T>(s: seq<T>, bs: seq<T>)
    ensures forall x :: x in Without(s, bs) ==> x in s && x !in bs
    ensures forall x :: x in s && x !in bs ==> x in Without(s, bs)
  {
    if s != [] {
      var p := s[..|s| - 1];
      WithoutMembers(p, bs);
      assert s == p + [s[|s| - 1]];
    }
  }

  lemma {:induction false} WithoutNoDuplicates<T>(s: seq<T>, bs: seq<T>)
    requires NoDuplicates(s)
    ensures NoDuplicates(Without(s, bs))
  {
    if s != [] {
      var p := s[..|s| - 1];
      WithoutNoDuplicates(p, bs);
      WithoutMembers(p, bs);
      assert s[|s| - 1] !in p;
    }
  }

  /** Removing elements keeps the remaining ones in first-occurrence order. */
  lemma {:induction false} WithoutOrder<T>(s: seq<T>, bs: seq<T>, a: seq<T>)
    requires FirstOccurrenceOrder(s, a)
    ensures FirstOccurrenceOrder(Without(s, bs), a)
  {
    if s != [] {
      var p := s[..|s| - 1];
      var x := s[|s| - 1];
      assert FirstOccurrenceOrder(p, a);
      WithoutOrder(p, bs, a);
      if x !in bs {
        var w := Without(p, bs);
        WithoutMembers(p, bs);
        LastComesLast(s, a, w);
        assert x in s;
        OrderSnoc(w, x, a);
      }
    }
  }

  /** In first-occurrence order, whatever comes from before the last element of `s` is found
      earlier in `a` than that element. */
  lemma LastComesLast<T>(s: seq<T>, a: seq<T>, w: seq<T>)
    requires s != [] && FirstOccurrenceOrder(s, a)
    requires forall x :: x in w ==> x in s[..|s| - 1]
    ensures forall x :: x in w ==> x in a
    ensures forall i :: 0 <= i < |w| ==> FirstIndex(a, w[i]) < FirstIndex(a, s[|s| - 1])
  {
    forall x | x in w ensures x in a {
      var k :| 0 <= k < |s| - 1 && s[..|s| - 1][k] == x;
      assert s[k] == x;
    }
    forall i | 0 <= i < |w| ensures FirstIndex(a, w[i]) < FirstIndex(a, s[|s| - 1]) {
      assert w[i] in w;
      var k :| 0 <= k < |s| - 1 && s[..|s| - 1][k] == w[i];
      assert s[k] == w[i];
    }
  }

  lemma OrderSnoc<T>(w: seq<T>, x: T, a: seq<T>)
    requires FirstOccurrenceOrder(w, a) && x in a
    requires forall i :: 0 <= i < |w| ==> FirstIndex(a, w[i]) < FirstIndex(a, x)
    ensures FirstOccurrenceOrder(w + [x], a)
  {
    var r := w + [x];
    forall i, j | 0 <= i < j < |r|
      ensures FirstIndex(a, r[i]) < FirstIndex(a, r[j])
    {
      if j < |w| {
        assert r[i] == w[i] && r[j] == w[j];
      } else {
        assert r[i] == w[i];
      }
    }
  }

  /** Removing `bs` and then `cs` removes everything in `bs + cs`. */
  lemma {:induction false} WithoutWithout<T>(s: seq<T>, bs: seq<T>, cs: seq<T>)
    ensures Without(Without(s, bs), cs) == Without(s, bs + cs)
  {
    if s != [] {
      var p := s[..|s| - 1];
      var x := s[|s| - 1];
      WithoutWithout(p, bs, cs);
      var w := Without(p, bs);
      if x !in bs {
        assert (w + [x])[..|w + [x]| - 1] == w;
      }
    }
  }

  /** Removing every element leaves nothing. */
  lemma {:induction false} WithoutAll<T>(s: seq<T>, bs: seq<T>)
    requires forall x :: x in s ==> x in bs
    ensures Without(s, bs) == []
  {
    if s != [] {
      var p := s[..|s| - 1];
      assert s[|s| - 1] in s;
      forall x | x in p ensures x in bs {
        assert x in s;
      }
      WithoutAll(p, bs);
    }
  }

  /** Removing elements that do not occur changes nothing. */
  lemma {:induction false} WithoutDisjoint<T>(s: seq<T>, bs: seq<T>)
    requires forall x :: x in bs ==> x !in s
    ensures Without(s, bs) == s
  {
    if s != [] {
      var p := s[..|s| - 1];
      WithoutDisjoint(p, bs);
      assert s == p + [s[|s| - 1]];
    }
  }

  /** From a sequence without repeats, removing `bs` drops at most `|bs|` elements. */
  lemma {:induction false} WithoutLength<T>(s: seq<T>, bs: seq<T>)
    requires NoDuplicates(s)
    ensures |Without(s, bs)| >= |s| - |bs|
  {
    if bs != [] {
      var q := bs[..|bs| - 1];
      var y := bs[|bs| - 1];
      WithoutLength(s, q);
      WithoutWithout(s, q, [y]);
      assert q + [y] == bs;
      WithoutNoDuplicates(s, q);
      WithoutOneLength(Without(s, q), y);
    } else {
      WithoutDisjoint(s, bs);
    }
  }

  lemma {:induction false} WithoutOneLength<T>(s: seq<T>, y: T)
    requires NoDuplicates(s)
    ensures |Without(s, [y])| >= |s| - 1
  {
    if s != [] {
      var p := s[..|s| - 1];
      if s[|s| - 1] == y {
        assert y !in p;
        WithoutDisjoint(p, [y]);
      } else {
        WithoutOneLength(p, y);
      }
    }
  }

  /** Appending a new element to both lists keeps first-occurrence order. */
  lemma OrderExtend<T>(r: seq<T>, s: seq<T>, x: T)
    requires FirstOccurrenceOrder(r, s) && x !in s
    ensures FirstOccurrenceOrder(r + [x], s + [x])
  {
    var s' := s + [x];
    assert s'[..|s|] == s;
    OrderInPrefix(r, s', |s|);
    LastFirstIndex(s');
    forall i | 0 <= i < |r| ensures FirstIndex(s', r[i]) < FirstIndex(s', x) {
      assert r[i] in r;
      FirstIndexInPrefix(s', |s|, r[i]);
    }
    OrderSnoc(r, x, s');
  }

  /** A list in first-occurrence order of some list has no repeats. */
  lemma OrderedNoDuplicates<T>(r: seq<T>, s: seq<T>)
    requires FirstOccurrenceOrder(r, s)
    ensures NoDuplicates(r)
  {
  }

  /** First-occurrence order is transitive. */
  lemma OrderTrans<T>(r: seq<T>, s: seq<T>, t: seq<T>)
    requires FirstOccurrenceOrder(r, s) && FirstOccurrenceOrder(s, t)
    ensures FirstOccurrenceOrder(r, t)
  {
    forall i, j | 0 <= i < j < |r|
      ensures r[i] in t && r[j] in t && FirstIndex(t, r[i]) < FirstIndex(t, r[j])
    {
      var p := FirstIndex(s, r[i]);
      var q := FirstIndex(s, r[j]);
      assert s[p] in s && s[q] in s;
    }
    forall x | x in r ensures x in t {
      assert x in s;
    }
  }

  /** Two lists without repeats and without common elements concatenate to a list without repeats. */
  lemma NoDuplicatesConcat<T>(a: seq<T>, b: seq<T>)
    requires NoDuplicates(a) && NoDuplicates(b)
    requires forall x :: x in a ==> x !in b
    ensures NoDuplicates(a + b)
  {
    var c := a + b;
    forall i, j | 0 <= i < j < |c| ensures c[i] != c[j] {
      if i < |a| && j >= |a| {
        assert c[i] == a[i] && a[i] in a;
        assert c[j] == b[j - |a|] && b[j - |a|] in b;
      } else if i >= |a| {
        assert c[i] == b[i - |a|] && c[j] == b[j - |a|];
      }
    }
  }

  lemma HeadIn<T>(s: seq<T>)
    requires s != []
    ensures s[0] in s
  {
  }

  /** A list with no members is empty. */
  lemma NoMembersEmpty<T>(s: seq<T>)
    requires forall x :: x !in s
    ensures s == []
  {
    if s != [] {
      HeadIn(s);
      assert false;
    }
  }

  /** Appending elements that all equal a new `k` adds `k` once, at the end, if there are any. */
  lemma {:induction false} DedupAppendConst<T>(s: seq<T>, t: seq<T>, k: T)
    requires k !in s
    requires forall i :: 0 <= i < |t| ==> t[i] == k
    ensures Dedup(s + t) == Dedup(s) + (if t == [] then [] else [k])
  {
    if t == [] {
      assert s + t == s;
    } else {
      var u := t[..|t| - 1];
      assert s + t == (s + u) + [k];
      DedupAppendConst(s, u, k);
      DedupSnoc(s + u, k);
      if u == [] {
        assert s + u == s;
      } else {
        assert k in s + u by { assert (s + u)[|s|] == k; }
      }
    }
  }
}
