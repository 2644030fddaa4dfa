/** The helpers of src/utils.ts: `difference`, an ordered and de-duplicating set
    subtraction, and `groupBy`, a grouping in order of first appearance. A JavaScript
    `Map` is modelled as an `OrderedMap`: its entries and the order its keys were added. */
module Utils {
  import opened Seqs

  /** A JavaScript `Map`: `keys` is the iteration order, `entries` the contents. */
  datatype OrderedMap<K(==), V> = OrderedMap(keys: seq<K>, entries: map<K, V>)

  /** The shape every `Map` has: each key listed once, exactly the keys of `entries`. */
  predicate WellFormedMap<K(==), V>(m: OrderedMap<K, V>) {
    NoDuplicates(m.keys) &&
    (forall k :: k in m.keys ==> k in m.entries) &&
    (forall k :: k in m.entries ==> k in m.keys)
  }

  /** `m.set(k, v)`: a new key is appended to the iteration order, an existing key keeps its place. */
  function Put<K(==), V>(m: OrderedMap<K, V>, k: K, v: V): OrderedMap<K, V>
  {
    if k in m.entries then OrderedMap(m.keys, m.entries[k := v])
    else OrderedMap(m.keys + [k], m.entries[k := v])
  }

  lemma PutWellFormed<K, V>(m: OrderedMap<K, V>, k: K, v: V)
    requires WellFormedMap(m)
    ensures WellFormedMap(Put(m, k, v))
    ensures Put(m, k, v).entries == m.entries[k := v]
  {
  }

  // ---------------------------------------------------------------------------
  // difference (src/utils.ts:16-24)
  // ---------------------------------------------------------------------------

  /** The value of `difference(a, b)`: the set built from `a` (first-occurrence
      order, no repeats) with every element of `b` deleted. */
  function DifferenceOf<T(==)>(a: seq<T>, b: seq<T>): seq<T>
  {
    Without(Dedup(a), b)
  }

  /** `difference`: build a set from `a`, delete each element of `b`, spread the rest. */
  method Difference<T(==)>(a: seq<T>, b: seq<T>) returns (r: seq<T>)
    ensures r == DifferenceOf(a, b)
    ensures forall x :: x in r ==> x in a && x !in b
    ensures forall x :: x in a && x !in b ==> x in r
    ensures NoDuplicates(r) && FirstOccurrenceOrder(r, a)
  {
    var setA := Dedup(a);
    WithoutDisjoint(setA, []);
    assert b[..0] == [];
    for i := 0 to |b|
      invariant setA == Without(Dedup(a), b[..i])
    {
      WithoutWithout(Dedup(a), b[..i], [b[i]]);
      assert b[..i] + [b[i]] == b[..i + 1];
      setA := Without(setA, [b[i]]);  // setA.delete(it)
    }
    assert b[..|b|] == b;
    r := setA;
    DifferenceMembers(a, b);
    DifferenceNoDuplicates(a, b);
    DifferenceOrder(a, b);
  }

  /** `difference(a, b)` holds exactly the elements of `a` that are not in `b`. */
  lemma DifferenceMembers<T>(a: seq<T>, b: seq<T>)
    ensures forall x :: x in DifferenceOf(a, b) ==> x in a && x !in b
    ensures forall x :: x in a && x !in b ==> x in DifferenceOf(a, b)
  {
    DedupMembers(a);
    WithoutMembers(Dedup(a), b);
  }

  /** `difference(a, b)` lists no element twice, even when `a` does. */
  lemma DifferenceNoDuplicates<T>(a: seq<T>, b: seq<T>)
    ensures NoDuplicates(DifferenceOf(a, b))
  {
    DedupNoDuplicates(a);
    WithoutNoDuplicates(Dedup(a), b);
  }

  /** `difference(a, b)` lists its elements in the order of their first occurrence in `a`. */
  lemma DifferenceOrder<T>(a: seq<T>, b: seq<T>)
    ensures FirstOccurrenceOrder(DifferenceOf(a, b), a)
  {
    DedupOrder(a);
    WithoutOrder(Dedup(a), b, a);
  }

  /** Those three properties pin the result down: any list with them is `difference(a, b)`. */
  lemma DifferenceUnique<T>(a: seq<T>, b: seq<T>, r: seq<T>)
    requires forall x :: x in r ==> x in a && x !in b
    requires forall x :: x in a && x !in b ==> x in r
    requires FirstOccurrenceOrder(r, a)
    ensures r == DifferenceOf(a, b)
  {
    DifferenceMembers(a, b);
    DifferenceOrder(a, b);
    SameOrderedEqual(r, DifferenceOf(a, b), a);
  }

  /** Two lists in first-occurrence order of `a` with the same elements are equal. */
  lemma {:induction false} SameOrderedEqual<T>(r: seq<T>, q: seq<T>, a: seq<T>)
    requires FirstOccurrenceOrder(r, a) && FirstOccurrenceOrder(q, a)
    requires forall x :: x in r ==> x in q
    requires forall x :: x in q ==> x in r
    ensures r == q
    decreases |r|
  {
    if r != [] {
      assert r[0] in r;
      SameOrderedHeads(r, q, a);
      forall x | x in r[1..] ensures x in q[1..] {
        OrderedTailMembers(r, a, x);
        OrderedTailMembers(q, a, x);
      }
      forall x | x in q[1..] ensures x in r[1..] {
        OrderedTailMembers(r, a, x);
        OrderedTailMembers(q, a, x);
      }
      OrderedTail(r, a);
      OrderedTail(q, a);
      SameOrderedEqual(r[1..], q[1..], a);
      assert r[1..] == q[1..];
      assert r == [r[0]] + r[1..];
      assert q == [q[0]] + q[1..];
    } else if q != [] {
      HeadIn(q);
      assert false;
    }
  }

  /** Both lists start with the element of their common set that occurs first in `a`. */
  lemma SameOrderedHeads<T>(r: seq<T>, q: seq<T>, a: seq<T>)
    requires FirstOccurrenceOrder(r, a) && FirstOccurrenceOrder(q, a)
    requires forall x :: x in r ==> x in q
    requires forall x :: x in q ==> x in r
    requires r != []
    ensures q != [] && r[0] == q[0]
  {
    assert r[0] in r && r[0] in q;
    assert q[0] in q && q[0] in r;
    var i := FirstIndex(r, q[0]);
    var j := FirstIndex(q, r[0]);
  }

  /** In a list in first-occurrence order, the tail holds everything but the head. */
  lemma OrderedTailMembers<T>(r: seq<T>, a: seq<T>, x: T)
    requires FirstOccurrenceOrder(r, a) && r != []
    ensures x in r[1..] <==> x in r && x != r[0]
  {
    if x in r[1..] {
      var i :| 0 <= i < |r[1..]| && r[1..][i] == x;
      assert r[i + 1] == x;
      assert FirstIndex(a, r[0]) < FirstIndex(a, r[i + 1]);
    }
    if x in r && x != r[0] {
      var i :| 0 <= i < |r| && r[i] == x;
      assert r[1..][i - 1] == x;
    }
  }

  lemma OrderedTail<T>(r: seq<T>, a: seq<T>)
    requires FirstOccurrenceOrder(r, a) && r != []
    ensures FirstOccurrenceOrder(r[1..], a)
  {
    forall i, j | 0 <= i < j < |r[1..]|
      ensures FirstIndex(a, r[1..][i]) < FirstIndex(a, r[1..][j])
    {
      assert r[1..][i] == r[i + 1] && r[1..][j] == r[j + 1];
    }
  }

  /** `difference(a, [])` is `a` with repeats removed. */
  lemma DifferenceOfNothing<T>(a: seq<T>)
    ensures DifferenceOf(a, []) == Dedup(a)
  {
    WithoutDisjoint(Dedup(a), []);
  }

  /** `difference(a, a)` is empty. */
  lemma DifferenceOfSelf<T>(a: seq<T>)
    ensures DifferenceOf(a, a) == []
  {
    DedupMembers(a);
    WithoutAll(Dedup(a), a);
  }

  /** From a list without repeats, `difference` removes at most `|b|` elements. */
  lemma DifferenceLength<T>(a: seq<T>, b: seq<T>)
    requires NoDuplicates(a)
    ensures |DifferenceOf(a, b)| >= |a| - |b|
  {
    DedupOfDistinct(a);
    WithoutLength(a, b);
  }

  // ---------------------------------------------------------------------------
  // groupBy (src/utils.ts:1-14)
  // ---------------------------------------------------------------------------

  /** The key of every item, in item order. */
  function KeysOf<T, K>(items: seq<T>, getKey: T -> K): (ks: seq<K>)
    ensures |ks| == |items|
    ensures forall i :: 0 <= i < |items| ==> ks[i] == getKey(items[i])
  {
    if items == [] then [] else KeysOf(items[..|items| - 1], getKey) + [getKey(items[|items| - 1])]
  }

  /** The items whose key is `k`, in item order. */
  function Select<T, K(==)>(items: seq<T>, getKey: T -> K, k: K): seq<T>
  {
    if items == [] then []
    else
      var s := Select(items[..|items| - 1], getKey, k);
      if getKey(items[|items| - 1]) == k then s + [items[|items| - 1]] else s
  }

  /** The value of `groupBy(items, getKey)`: one group per distinct key, keys in order of
      first appearance, each group the items with that key in their original order. */
  function Grouped<T, K(==)>(items: seq<T>, getKey: T -> K): OrderedMap<K, seq<T>>
  {
    var ks := KeysOf(items, getKey);
    OrderedMap(Dedup(ks), map k | k in ks :: Select(items, getKey, k))
  }

  /** `groupBy`: for each item, fetch its key's group (creating an empty one first), append the item. */
  method GroupBy<T, K(==)>(items: seq<T>, getKey: T -> K) returns (groups: OrderedMap<K, seq<T>>)
    ensures groups == Grouped(items, getKey)
  {
    groups := OrderedMap([], map[]);
    assert items[..0] == [];
    assert groups == Grouped(items[..0], getKey);
    for i := 0 to |items|
      invariant groups == Grouped(items[..i], getKey)
    {
      var it := items[i];
      ghost var before := groups;
      GroupedPut(items, getKey, i);
      var group: seq<T>;
      if getKey(it) in groups.entries {
        group := groups.entries[getKey(it)];
      } else {
        group := [];
        groups := Put(groups, getKey(it), group);
        PutTwice(before, getKey(it), group, group + [it]);
      }
      // `group.push(it)` changes the list the map holds
      group := group + [it];
      groups := Put(groups, getKey(it), group);
    }
    assert items[..|items|] == items;
  }

  /** Setting a key twice is setting it to the second value. */
  lemma PutTwice<K, V>(m: OrderedMap<K, V>, k: K, v: V, w: V)
    ensures Put(Put(m, k, v), k, w) == Put(m, k, w)
  {
  }

  /** One iteration of the `groupBy` loop, as the map update it performs. */
  lemma GroupedPut<T, K>(items: seq<T>, getKey: T -> K, i: nat)
    requires i < |items|
    ensures var g := Grouped(items[..i], getKey);
            var k := getKey(items[i]);
            Grouped(items[..i + 1], getKey) == Put(g, k, (if k in g.entries then g.entries[k] else []) + [items[i]])
  {
    GroupedStep(items, getKey, i);
  }

  /** One iteration of the `groupBy` loop: the key order gains the item's key if it is new,
      and the item is appended to its key's group. */
  lemma GroupedStep<T, K>(items: seq<T>, getKey: T -> K, i: nat)
    requires i < |items|
    ensures var g := Grouped(items[..i], getKey);
            var k := getKey(items[i]);
            var h := Grouped(items[..i + 1], getKey);
            h.keys == (if k in g.entries then g.keys else g.keys + [k]) &&
            h.entries == g.entries[k := (if k in g.entries then g.entries[k] else []) + [items[i]]]
  {
    var p := items[..i];
    var x := items[i];
    assert items[..i + 1] == p + [x];
    GroupedSnocKeys(p, getKey, x);
    GroupedSnocEntries(p, getKey, x);
  }

  lemma GroupedSnocKeys<T, K>(p: seq<T>, getKey: T -> K, x: T)
    ensures var g := Grouped(p, getKey);
            var k := getKey(x);
            Grouped(p + [x], getKey).keys == if k in g.entries then g.keys else g.keys + [k]
  {
    var q := p + [x];
    assert q[..|q| - 1] == p;
    assert KeysOf(q, getKey) == KeysOf(p, getKey) + [getKey(x)];
    DedupSnoc(KeysOf(p, getKey), getKey(x));
  }

  lemma GroupedSnocEntries<T, K>(p: seq<T>, getKey: T -> K, x: T)
    ensures var g := Grouped(p, getKey);
            var k := getKey(x);
            Grouped(p + [x], getKey).entries == g.entries[k := (if k in g.entries then g.entries[k] else []) + [x]]
  {
    var q := p + [x];
    var k := getKey(x);
    assert q[..|q| - 1] == p;
    var ks := KeysOf(p, getKey);
    assert KeysOf(q, getKey) == ks + [k];
    var m0 := Grouped(p, getKey).entries;
    var m1 := Grouped(q, getKey).entries;
    var m2 := m0[k := (if k in m0 then m0[k] else []) + [x]];
    forall k' | k' in m1 ensures k' in m2 && m1[k'] == m2[k'] {
      SelectSnoc(p, getKey, k', x);
      if k' == k && k !in m0 {
        SelectAbsent(p, getKey, k);
      }
    }
    forall k' | k' in m2 ensures k' in m1 {
    }
  }

  /** No item is selected for a key that no item has. */
  lemma {:induction false} SelectAbsent<T, K>(items: seq<T>, getKey: T -> K, k: K)
    requires k !in KeysOf(items, getKey)
    ensures Select(items, getKey, k) == []
  {
    if items != [] {
      var p := items[..|items| - 1];
      assert KeysOf(items, getKey) == KeysOf(p, getKey) + [getKey(items[|items| - 1])];
      SelectAbsent(p, getKey, k);
    }
  }

  lemma {:induction false} KeysOfConcat<T, K>(a: seq<T>, b: seq<T>, getKey: T -> K)
    ensures KeysOf(a + b, getKey) == KeysOf(a, getKey) + KeysOf(b, getKey)
  {
  }

  /** The items of a concatenation with key `k` are those of each part, in order. */
  lemma {:induction false} SelectConcat<T, K>(a: seq<T>, b: seq<T>, getKey: T -> K, k: K)
    ensures Select(a + b, getKey, k) == Select(a, getKey, k) + Select(b, getKey, k)
  {
    if b == [] {
      assert a + b == a;
    } else {
      var p := b[..|b| - 1];
      assert a + b == (a + p) + [b[|b| - 1]];
      assert (a + b)[..|a + b| - 1] == a + p;
      SelectConcat(a, p, getKey, k);
    }
  }

  /** When every item has key `k`, they all go to `k`'s group. */
  lemma {:induction false} SelectAll<T, K>(items: seq<T>, getKey: T -> K, k: K)
    requires forall i :: 0 <= i < |items| ==> getKey(items[i]) == k
    ensures Select(items, getKey, k) == items
  {
    if items != [] {
      var p := items[..|items| - 1];
      SelectAll(p, getKey, k);
      assert items == p + [items[|items| - 1]];
    }
  }

  lemma SelectSnoc<T, K>(p: seq<T>, getKey: T -> K, k: K, x: T)
    ensures Select(p + [x], getKey, k) == Select(p, getKey, k) + (if getKey(x) == k then [x] else [])
  {
    assert (p + [x])[..|p + [x]| - 1] == p;
  }

  /** Every key of the result is listed once, exactly the keys of its entries, in order of first appearance. */
  lemma GroupedKeys<T, K>(items: seq<T>, getKey: T -> K)
    ensures var g := Grouped(items, getKey);
            WellFormedMap(g) &&
            (forall k :: k in g.entries ==> k in KeysOf(items, getKey)) &&
            (forall k :: k in KeysOf(items, getKey) ==> k in g.entries) &&
            FirstOccurrenceOrder(g.keys, KeysOf(items, getKey))
  {
    var ks := KeysOf(items, getKey);
    DedupMembers(ks);
    DedupNoDuplicates(ks);
    DedupOrder(ks);
  }

  /** The items selected for `k` are exactly the items whose key is `k`. */
  lemma {:induction false} SelectMembers<T, K>(items: seq<T>, getKey: T -> K, k: K)
    ensures forall x :: x in Select(items, getKey, k) ==> x in items && getKey(x) == k
    ensures forall x :: x in items && getKey(x) == k ==> x in Select(items, getKey, k)
  {
    if items != [] {
      var p := items[..|items| - 1];
      SelectMembers(p, getKey, k);
      assert items == p + [items[|items| - 1]];
    }
  }

  /** The items selected for `k` are, with their multiplicities, the items whose key is `k`. */
  lemma {:induction false} SelectMultiset<T, K>(items: seq<T>, getKey: T -> K, k: K)
    ensures forall x :: multiset(Select(items, getKey, k))[x] == if getKey(x) == k then multiset(items)[x] else 0
  {
    if items != [] {
      var p := items[..|items| - 1];
      SelectMultiset(p, getKey, k);
      assert items == p + [items[|items| - 1]];
    }
  }

  /** Every item lands in the group of its own key and in no other, as often as it occurs. */
  lemma GroupedPartition<T, K>(items: seq<T>, getKey: T -> K)
    ensures var g := Grouped(items, getKey);
            (forall i :: 0 <= i < |items| ==> getKey(items[i]) in g.entries && items[i] in g.entries[getKey(items[i])]) &&
            (forall k, x :: k in g.entries ==>
               multiset(g.entries[k])[x] == if getKey(x) == k then multiset(items)[x] else 0)
  {
    var g := Grouped(items, getKey);
    forall k | k in g.entries
      ensures forall x :: multiset(g.entries[k])[x] == if getKey(x) == k then multiset(items)[x] else 0
    {
      SelectMultiset(items, getKey, k);
    }
    forall i | 0 <= i < |items|
      ensures getKey(items[i]) in g.entries && items[i] in g.entries[getKey(items[i])]
    {
      assert KeysOf(items, getKey)[i] == getKey(items[i]);
      SelectMultiset(items, getKey, getKey(items[i]));
      assert items[i] in multiset(items);
    }
  }

  /** No group is empty. */
  lemma GroupedNonEmpty<T, K>(items: seq<T>, getKey: T -> K)
    ensures var g := Grouped(items, getKey);
            forall k :: k in g.entries ==> |g.entries[k]| > 0
  {
    var g := Grouped(items, getKey);
    forall k | k in g.entries ensures |g.entries[k]| > 0 {
      var ks := KeysOf(items, getKey);
      var i :| 0 <= i < |ks| && ks[i] == k;
      SelectMultiset(items, getKey, k);
      assert items[i] in multiset(items);
      assert multiset(g.entries[k])[items[i]] > 0;
    }
  }

  /** A list `r` occurs in `s` in order, possibly with gaps. */
  predicate IsSubsequence<T(==)>(r: seq<T>, s: seq<T>)
    decreases |s|
  {
    if r == [] then true
    else if s == [] then false
    else if r[|r| - 1] == s[|s| - 1] then IsSubsequence(r[..|r| - 1], s[..|s| - 1])
    else IsSubsequence(r, s[..|s| - 1])
  }

  lemma {:induction false} SelectSubsequence<T, K>(items: seq<T>, getKey: T -> K, k: K)
    ensures IsSubsequence(Select(items, getKey, k), items)
  {
    if items != [] {
      var p := items[..|items| - 1];
      var s := Select(p, getKey, k);
      SelectSubsequence(p, getKey, k);
      if getKey(items[|items| - 1]) == k {
        assert (s + [items[|items| - 1]])[..|s|] == s;
      } else if s != [] {
        SubsequenceOfPrefixLast(s, items);
      }
    }
  }

  /** A subsequence of all but the last element of `s` is a subsequence of `s`. */
  lemma {:induction false} SubsequenceOfPrefixLast<T>(r: seq<T>, s: seq<T>)
    requires s != [] && IsSubsequence(r, s[..|s| - 1])
    ensures IsSubsequence(r, s)
    decreases |s|, 0
  {
    if r != [] && r[|r| - 1] == s[|s| - 1] {
      SubsequenceWeaken(r, s[..|s| - 1]);
    }
  }

  /** Dropping the last element of `r` keeps it a subsequence. */
  lemma {:induction false} SubsequenceWeaken<T>(r: seq<T>, s: seq<T>)
    requires r != [] && IsSubsequence(r, s)
    ensures IsSubsequence(r[..|r| - 1], s)
    decreases |s|, 1
  {
    var s' := s[..|s| - 1];
    if r[|r| - 1] != s[|s| - 1] {
      SubsequenceWeaken(r, s');
    }
    if r[..|r| - 1] != [] {
      SubsequenceOfPrefixLast(r[..|r| - 1], s);
    }
  }

  /** Within a group, items keep their original relative order. */
  lemma GroupedOrder<T, K>(items: seq<T>, getKey: T -> K)
    ensures var g := Grouped(items, getKey);
            forall k :: k in g.entries ==> IsSubsequence(g.entries[k], items)
  {
    var g := Grouped(items, getKey);
    forall k | k in g.entries ensures IsSubsequence(g.entries[k], items) {
      SelectSubsequence(items, getKey, k);
    }
  }

  /** The total size of the groups listed in `ks`. */
  function TotalSize<K(==), V>(ks: seq<K>, m: map<K, seq<V>>): nat
    requires forall k :: k in ks ==> k in m
  {
    if ks == [] then 0 else TotalSize(ks[..|ks| - 1], m) + |m[ks[|ks| - 1]]|
  }

  /** The group sizes add up to the number of items. */
  lemma GroupedSizes<T, K>(items: seq<T>, getKey: T -> K)
    ensures var g := Grouped(items, getKey);
            (forall k :: k in g.keys ==> k in g.entries) &&
            TotalSize(g.keys, g.entries) == |items|
  {
    var g := Grouped(items, getKey);
    GroupedKeys(items, getKey);
    GroupedTotal(items, getKey, g.keys);
    SameTotal(g.keys, g.entries, items, getKey);
  }

  /** The sizes of the selections for a list of distinct keys covering all items sum to `|items|`. */
  function SelectedSize<T, K(==)>(ks: seq<K>, items: seq<T>, getKey: T -> K): nat
  {
    if ks == [] then 0 else SelectedSize(ks[..|ks| - 1], items, getKey) + |Select(items, getKey, ks[|ks| - 1])|
  }

  lemma {:induction false} SameTotal<T, K>(ks: seq<K>, m: map<K, seq<T>>, items: seq<T>, getKey: T -> K)
    requires forall k :: k in ks ==> k in m && m[k] == Select(items, getKey, k)
    ensures TotalSize(ks, m) == SelectedSize(ks, items, getKey)
  {
    if ks != [] {
      SameTotal(ks[..|ks| - 1], m, items, getKey);
    }
  }

  lemma {:induction false} GroupedTotal<T, K>(items: seq<T>, getKey: T -> K, ks: seq<K>)
    requires NoDuplicates(ks)
    requires forall i :: 0 <= i < |items| ==> getKey(items[i]) in ks
    ensures SelectedSize(ks, items, getKey) == |items|
  {
    if items != [] {
      var p := items[..|items| - 1];
      var x := items[|items| - 1];
      GroupedTotal(p, getKey, ks);
      SelectedSizeSnoc(ks, p, getKey, x);
      assert p + [x] == items;
    } else {
      SelectedSizeEmpty(ks, getKey);
    }
  }

  lemma {:induction false} SelectedSizeEmpty<T, K>(ks: seq<K>, getKey: T -> K)
    ensures SelectedSize(ks, [], getKey) == 0
  {
    if ks != [] {
      SelectedSizeEmpty(ks[..|ks| - 1], getKey);
    }
  }

  /** Adding one item adds one to the total when its key is listed once. */
  lemma {:induction false} SelectedSizeSnoc<T, K>(ks: seq<K>, p: seq<T>, getKey: T -> K, x: T)
    requires NoDuplicates(ks)
    ensures SelectedSize(ks, p + [x], getKey) == SelectedSize(ks, p, getKey) + (if getKey(x) in ks then 1 else 0)
  {
    assert (p + [x])[..|p + [x]| - 1] == p;
    if ks != [] {
      var ks' := ks[..|ks| - 1];
      SelectedSizeSnoc(ks', p, getKey, x);
      assert ks == ks' + [ks[|ks| - 1]];
      assert getKey(x) in ks <==> getKey(x) in ks' || getKey(x) == ks[|ks| - 1];
      assert ks[|ks| - 1] !in ks';
    }
  }
}
