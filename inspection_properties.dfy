/** What `inspectMissingProp` promises, stated against definitions that do not mention
    its buckets or its sort: the files reported are exactly the qualifying files with
    fewer keys than the most any file has, each once, by descending key count and then
    in input order, each with the keys of the reference file it lacks. */
module InspectionProperties {
  import opened Seqs
  import opened Utils
  import opened Phrases
  import opened Inspection

  /** The files of a directory have distinct names. */
  predicate DistinctFiles(values: seq<ValuePair>) {
    NoDuplicates(Names(values))
  }

  /** `Object.keys` lists each key of an object once. */
  predicate WellShaped(values: seq<ValuePair>) {
    forall i :: 0 <= i < |values| && values[i].1.Object? ==> NoDuplicates(values[i].1.keys)
  }

  /** The number of keys of the value listed for `file`. */
  function KeyCount(values: seq<ValuePair>, file: Filename): nat {
    |ObjectKeys(Find(values, file))|
  }

  predicate QualifiesFile(values: seq<ValuePair>, file: Filename) {
    file in Names(values) && Qualifies(Find(values, file))
  }

  /** The largest number of keys of a qualifying value (0 when none qualifies). */
  function MaxCount(values: seq<ValuePair>): (m: nat)
    ensures forall i :: 0 <= i < |values| && Qualifies(values[i].1) ==> |values[i].1.keys| <= m
    ensures m > 0 ==> exists i :: 0 <= i < |values| && Qualifies(values[i].1) && |values[i].1.keys| == m
  {
    if values == [] then 0
    else
      var p := values[..|values| - 1];
      var x := values[|values| - 1];
      var m := MaxCount(p);
      assert forall i :: 0 <= i < |p| ==> p[i] == values[i];
      if Qualifies(x.1) && |x.1.keys| > m then |x.1.keys| else m
  }

  /** The position of the first qualifying value with `m` keys (`|values|` when there is none). */
  function FirstWith(values: seq<ValuePair>, m: nat): (r: nat)
    ensures r <= |values|
    ensures r < |values| ==> Qualifies(values[r].1) && |values[r].1.keys| == m
    ensures forall j :: 0 <= j < r ==> !(Qualifies(values[j].1) && |values[j].1.keys| == m)
  {
    if values == [] then 0
    else if Qualifies(values[0].1) && |values[0].1.keys| == m then 0
    else
      var r := FirstWith(values[1..], m);
      assert forall j :: 0 < j < |values| ==> values[j] == values[1..][j - 1];
      1 + r
  }

  /** The reference keys: those of the first file, in input order, that has the most keys. */
  function RefKeys(values: seq<ValuePair>): seq<string> {
    var r := FirstWith(values, MaxCount(values));
    if r < |values| then values[r].1.keys else []
  }

  /** A file that should be reported: it qualifies and has fewer keys than the most. */
  predicate Lagging(values: seq<ValuePair>, file: Filename) {
    QualifiesFile(values, file) && KeyCount(values, file) < MaxCount(values)
  }

  /** `f` is reported before `g`: more keys first, then input order. */
  predicate RankedBefore(values: seq<ValuePair>, f: Filename, g: Filename) {
    f in Names(values) && g in Names(values) &&
    (KeyCount(values, f) > KeyCount(values, g) ||
     (KeyCount(values, f) == KeyCount(values, g) && FirstIndex(Names(values), f) < FirstIndex(Names(values), g)))
  }

  /** Files in reporting order. */
  predicate Ranked(values: seq<ValuePair>, files: seq<Filename>) {
    forall t1, t2 :: 0 <= t1 < t2 < |files| ==> RankedBefore(values, files[t1], files[t2])
  }

  /** The lagging files, each once, in reporting order. */
  ghost predicate LaggingList(values: seq<ValuePair>, files: seq<Filename>) {
    (forall f :: f in files ==> Lagging(values, f)) &&
    (forall f :: Lagging(values, f) ==> f in files) &&
    NoDuplicates(files) &&
    Ranked(values, files)
  }

  /** Every qualifying value has the same number of keys. */
  predicate AllSameCount(values: seq<ValuePair>) {
    forall i, j :: 0 <= i < |values| && 0 <= j < |values| && Qualifies(values[i].1) && Qualifies(values[j].1) ==>
      |values[i].1.keys| == |values[j].1.keys|
  }

  /** The files the issues are about, in issue order (`Utils.KeysOf` with the file
      projection, written out so that lemmas about it need no function value). */
  function FilesOf(issues: seq<Issue>): (fs: seq<Filename>)
    ensures |fs| == |issues|
    ensures forall t :: 0 <= t < |issues| ==> fs[t] == issues[t].file
  {
    if issues == [] then [] else FilesOf(issues[..|issues| - 1]) + [issues[|issues| - 1].file]
  }

  // ---------------------------------------------------------------------------
  // Looking values up
  // ---------------------------------------------------------------------------

  lemma NamesSnoc<X>(s: seq<(string, X)>, x: (string, X))
    ensures Names(s + [x]) == Names(s) + [x.0]
  {
  }

  lemma NamesPrefix<X>(s: seq<(string, X)>, n: nat)
    requires n <= |s|
    ensures Names(s[..n]) == Names(s)[..n]
  {
  }

  /** `find` yields the value of the first pair for the file. */
  lemma {:induction false} FindFirst(values: seq<ValuePair>, file: Filename)
    requires file in Names(values)
    ensures Find(values, file) == values[FirstIndex(Names(values), file)].1
  {
    if values[0].0 != file {
      var ns := Names(values);
      assert Names(values[1..]) == ns[1..];
      assert ns[0] != file;
      assert file in ns[1..];
      FindFirst(values[1..], file);
    }
  }

  /** A file that is not listed is found with no value. */
  lemma {:induction false} FindAbsent(values: seq<ValuePair>, file: Filename)
    requires file !in Names(values)
    ensures Find(values, file) == Null
  {
    if values != [] {
      var ns := Names(values);
      assert ns[0] == values[0].0;
      assert Names(values[1..]) == ns[1..];
      assert file !in ns[1..] by {
        forall j | 0 <= j < |ns[1..]| ensures ns[1..][j] != file {
          assert ns[1..][j] == ns[j + 1];
        }
      }
      FindAbsent(values[1..], file);
    }
  }

  /** With distinct names, `find` yields the value listed for the file. */
  lemma FindDistinct(values: seq<ValuePair>, i: nat)
    requires DistinctFiles(values) && i < |values|
    ensures Find(values, values[i].0) == values[i].1
  {
    var ns := Names(values);
    assert ns[i] == values[i].0;
    FirstIndexOfDistinct(ns, i);
    FindFirst(values, values[i].0);
  }

  // ---------------------------------------------------------------------------
  // propsCount
  // ---------------------------------------------------------------------------

  /** `propsCount` lists the qualifying values with their key counts, in input order. */
  lemma PropsCountIndexed(values: seq<ValuePair>)
    ensures var cs := PropsCount(values);
            forall a :: 0 <= a < |cs| ==>
              exists i :: 0 <= i < |values| && values[i].0 == cs[a].0 && Qualifies(values[i].1) && cs[a].1 == |values[i].1.keys|
    ensures var cs := PropsCount(values);
            forall i :: 0 <= i < |values| && Qualifies(values[i].1) ==> (values[i].0, |values[i].1.keys|) in cs
    ensures DistinctFiles(values) ==> FirstOccurrenceOrder(Names(PropsCount(values)), Names(values))
  {
    PropsCountSound(values);
    PropsCountComplete(values);
    if DistinctFiles(values) {
      PropsCountOrder(values);
    }
  }

  /** Each entry of `propsCount` is a qualifying value with its number of keys. */
  lemma {:induction false} PropsCountSound(values: seq<ValuePair>)
    ensures forall a :: 0 <= a < |PropsCount(values)| ==>
              exists i :: 0 <= i < |values| && values[i].0 == PropsCount(values)[a].0 && Qualifies(values[i].1) &&
                          PropsCount(values)[a].1 == |values[i].1.keys|
  {
    if values == [] {
      assert PropsCount(values) == [];
    } else {
      var p := values[..|values| - 1];
      var x := values[|values| - 1];
      PropsCountSound(p);
      var cp := PropsCount(p);
      var cs := PropsCount(values);
      assert cs == cp || cs == cp + [(x.0, |x.1.keys|)];
      forall a | 0 <= a < |cs|
        ensures exists i :: 0 <= i < |values| && values[i].0 == cs[a].0 && Qualifies(values[i].1) && cs[a].1 == |values[i].1.keys|
      {
        if a == |cp| {
          assert values[|p|] == x;
        } else {
          assert a < |cp| && cs[a] == cp[a];
          var i :| 0 <= i < |p| && p[i].0 == cp[a].0 && Qualifies(p[i].1) && cp[a].1 == |p[i].1.keys|;
          assert values[i] == p[i];
        }
      }
    }
  }

  /** Every qualifying value is in `propsCount` with its number of keys. */
  lemma {:induction false} PropsCountComplete(values: seq<ValuePair>)
    ensures var cs := PropsCount(values);
            forall i :: 0 <= i < |values| && Qualifies(values[i].1) ==> (values[i].0, |values[i].1.keys|) in cs
  {
    if values != [] {
      var p := values[..|values| - 1];
      PropsCountComplete(p);
      assert forall i :: 0 <= i < |p| ==> p[i] == values[i];
    }
  }

  /** With distinct names, `propsCount` keeps the files in input order. */
  lemma {:induction false} PropsCountOrder(values: seq<ValuePair>)
    requires DistinctFiles(values)
    ensures FirstOccurrenceOrder(Names(PropsCount(values)), Names(values))
  {
    if values != [] {
      var p := values[..|values| - 1];
      var x := values[|values| - 1];
      var cp := PropsCount(p);
      var ns := Names(values);
      NamesSnoc(p, x);
      NamesPrefix(values, |p|);
      assert Names(p) == ns[..|p|];
      assert NoDuplicates(Names(p));
      PropsCountOrder(p);
      assert x.0 == ns[|p|];
      assert x.0 !in Names(p);
      if Qualifies(x.1) {
        NamesSnoc(cp, (x.0, |x.1.keys|));
        OrderExtend(Names(cp), Names(p), x.0);
      } else {
        OrderInPrefix(Names(cp), ns, |p|);
      }
    }
  }

  /** The same, by file name. */
  lemma PropsCountFiles(values: seq<ValuePair>)
    requires DistinctFiles(values)
    ensures forall e :: e in PropsCount(values) ==> QualifiesFile(values, e.0) && e.1 == KeyCount(values, e.0)
    ensures forall f :: QualifiesFile(values, f) ==> (f, KeyCount(values, f)) in PropsCount(values)
  {
    var cs := PropsCount(values);
    PropsCountIndexed(values);
    forall e | e in cs ensures QualifiesFile(values, e.0) && e.1 == KeyCount(values, e.0) {
      var a :| 0 <= a < |cs| && cs[a] == e;
      var i :| 0 <= i < |values| && values[i].0 == cs[a].0 && Qualifies(values[i].1) && cs[a].1 == |values[i].1.keys|;
      FindDistinct(values, i);
      assert Names(values)[i] == e.0;
    }
    forall f | QualifiesFile(values, f) ensures (f, KeyCount(values, f)) in cs {
      var i := FirstIndex(Names(values), f);
      FindFirst(values, f);
    }
  }

  /** A count of a qualifying value never exceeds the maximum, and the maximum is attained. */
  lemma MaxCountFiles(values: seq<ValuePair>)
    requires DistinctFiles(values)
    ensures forall f :: QualifiesFile(values, f) ==> 0 < KeyCount(values, f) <= MaxCount(values)
    ensures MaxCount(values) > 0 ==> QualifiesFile(values, values[FirstWith(values, MaxCount(values))].0)
    ensures MaxCount(values) > 0 ==>
              FirstWith(values, MaxCount(values)) < |values| &&
              KeyCount(values, values[FirstWith(values, MaxCount(values))].0) == MaxCount(values)
  {
    forall f | QualifiesFile(values, f) ensures 0 < KeyCount(values, f) <= MaxCount(values) {
      FindFirst(values, f);
    }
    var m := MaxCount(values);
    if m > 0 {
      var i :| 0 <= i < |values| && Qualifies(values[i].1) && |values[i].1.keys| == m;
      var r := FirstWith(values, m);
      assert r <= i;
      FindDistinct(values, r);
      assert Names(values)[r] == values[r].0;
    }
  }

  // ---------------------------------------------------------------------------
  // byCount
  // ---------------------------------------------------------------------------

  /** The bucket counts are the counts of the counted files. */
  lemma BucketsCounts(counts: seq<(Filename, nat)>)
    ensures var b := Buckets(counts);
            forall c :: c in b.entries ==> exists a :: 0 <= a < |counts| && counts[a].1 == c
    ensures var b := Buckets(counts);
            forall e :: e in counts ==> e.1 in b.entries
  {
    var b := Buckets(counts);
    var ks := KeysOf(counts, CountOfEntry);
    GroupedKeys(counts, CountOfEntry);
    forall c | c in b.entries ensures exists a :: 0 <= a < |counts| && counts[a].1 == c {
      var a :| 0 <= a < |ks| && ks[a] == c;
      assert counts[a].1 == c;
    }
    forall e | e in counts ensures e.1 in b.entries {
      var a :| 0 <= a < |counts| && counts[a] == e;
      assert ks[a] == e.1;
    }
  }

  /** The buckets hold exactly the counted files, each under its own count. */
  lemma BucketsMembers(counts: seq<(Filename, nat)>)
    ensures var b := Buckets(counts);
            forall c, f :: c in b.entries && f in b.entries[c] ==> (f, c) in counts
    ensures var b := Buckets(counts);
            forall c, f :: c in b.entries && (f, c) in counts ==> f in b.entries[c]
  {
    var b := Buckets(counts);
    forall c | c in b.entries
      ensures forall f :: f in b.entries[c] ==> (f, c) in counts
      ensures forall f :: (f, c) in counts ==> f in b.entries[c]
    {
      BucketMembers(counts, c);
    }
  }

  lemma BucketMembers(counts: seq<(Filename, nat)>, c: nat)
    requires c in Buckets(counts).entries
    ensures forall f :: f in Buckets(counts).entries[c] ==> (f, c) in counts
    ensures forall f :: (f, c) in counts ==> f in Buckets(counts).entries[c]
  {
    var sel := Select(counts, CountOfEntry, c);
    SelectMembers(counts, CountOfEntry, c);
    var ns := Names(sel);
    assert Buckets(counts).entries[c] == ns;
    forall f | f in ns ensures (f, c) in counts {
      var a :| 0 <= a < |ns| && ns[a] == f;
      assert sel[a] in sel;
      assert sel[a] == (f, c);
    }
    forall f | (f, c) in counts ensures f in ns {
      assert CountOfEntry((f, c)) == c;
      var a :| 0 <= a < |sel| && sel[a] == (f, c);
      assert ns[a] == f;
    }
  }

  /** The files selected for one count keep the order of the list they come from. */
  lemma {:induction false} SelectNamesOrder(counts: seq<(Filename, nat)>, c: nat)
    requires NoDuplicates(Names(counts))
    ensures FirstOccurrenceOrder(Names(Select(counts, CountOfEntry, c)), Names(counts))
  {
    if counts != [] {
      var p := counts[..|counts| - 1];
      var x := counts[|counts| - 1];
      NamesPrefix(counts, |p|);
      NamesSnoc(p, x);
      assert counts == p + [x];
      var ns := Names(counts);
      assert Names(p) == ns[..|p|];
      assert NoDuplicates(Names(p));
      assert x.0 == ns[|p|];
      assert x.0 !in Names(p);
      SelectNamesOrder(p, c);
      var sp := Select(p, CountOfEntry, c);
      if x.1 == c {
        NamesSnoc(sp, x);
        OrderExtend(Names(sp), Names(p), x.0);
      } else {
        OrderInPrefix(Names(sp), ns, |p|);
      }
    }
  }

  /** Each bucket lists its files in input order. */
  lemma BucketOrder(values: seq<ValuePair>, c: nat)
    requires DistinctFiles(values)
    requires c in Buckets(PropsCount(values)).entries
    ensures FirstOccurrenceOrder(Buckets(PropsCount(values)).entries[c], Names(values))
  {
    var cs := PropsCount(values);
    PropsCountIndexed(values);
    OrderedNoDuplicates(Names(cs), Names(values));
    SelectNamesOrder(cs, c);
    OrderTrans(Buckets(cs).entries[c], Names(cs), Names(values));
  }

  // ---------------------------------------------------------------------------
  // The trouble files
  // ---------------------------------------------------------------------------

  /** Every file of a bucket has that bucket's count. */
  predicate Bucketed(values: seq<ValuePair>, b: OrderedMap<nat, seq<Filename>>) {
    forall c, f :: c in b.entries && f in b.entries[c] ==> KeyCount(values, f) == c
  }

  lemma {:induction false} TroubleMembers(values: seq<ValuePair>, b: OrderedMap<nat, seq<Filename>>, os: seq<nat>)
    requires forall c :: c in os ==> c in b.entries
    requires Bucketed(values, b)
    ensures forall f :: f in TroubleFiles(b, os) ==> KeyCount(values, f) in os && f in b.entries[KeyCount(values, f)]
    ensures forall c, f :: c in os && f in b.entries[c] ==> f in TroubleFiles(b, os)
  {
    if os != [] {
      var os' := os[..|os| - 1];
      assert forall c :: c in os' ==> c in os;
      TroubleMembers(values, b, os');
      assert os == os' + [os[|os| - 1]];
    }
  }

  lemma {:induction false} TroubleDistinct(values: seq<ValuePair>, b: OrderedMap<nat, seq<Filename>>, os: seq<nat>)
    requires forall c :: c in os ==> c in b.entries && NoDuplicates(b.entries[c])
    requires Bucketed(values, b) && NoDuplicates(os)
    ensures NoDuplicates(TroubleFiles(b, os))
  {
    if os != [] {
      var os' := os[..|os| - 1];
      var c := os[|os| - 1];
      assert forall d :: d in os' ==> d in os;
      assert c !in os';
      TroubleDistinct(values, b, os');
      TroubleMembers(values, b, os');
      NoDuplicatesConcat(TroubleFiles(b, os'), b.entries[c]);
    }
  }

  lemma {:induction false} TroubleRanked(values: seq<ValuePair>, b: OrderedMap<nat, seq<Filename>>, os: seq<nat>)
    requires forall c :: c in os ==> c in b.entries && FirstOccurrenceOrder(b.entries[c], Names(values))
    requires Bucketed(values, b)
    requires forall i, j :: 0 <= i < j < |os| ==> os[i] > os[j]
    ensures Ranked(values, TroubleFiles(b, os))
  {
    if os != [] {
      var os' := os[..|os| - 1];
      var c := os[|os| - 1];
      assert forall d :: d in os' ==> d in os;
      TroubleRanked(values, b, os');
      TroubleMembers(values, b, os');
      var fs' := TroubleFiles(b, os');
      assert c in os;
      var e := b.entries[c];
      BucketRanked(values, e, c);
      forall f, g | f in fs' && g in e ensures RankedBefore(values, f, g) {
        var k :| 0 <= k < |os'| && os'[k] == KeyCount(values, f);
        assert os[k] == os'[k] && os[k] in os;
        assert f in b.entries[os[k]];
      }
      RankedConcat(values, fs', e);
    }
  }

  /** A bucket in input order is in reporting order. */
  lemma BucketRanked(values: seq<ValuePair>, e: seq<Filename>, c: nat)
    requires FirstOccurrenceOrder(e, Names(values))
    requires forall f :: f in e ==> KeyCount(values, f) == c
    ensures Ranked(values, e)
  {
    forall t1, t2 | 0 <= t1 < t2 < |e| ensures RankedBefore(values, e[t1], e[t2]) {
      assert e[t1] in e && e[t2] in e;
    }
  }

  /** Two lists in reporting order, the first wholly before the second, make one. */
  lemma RankedConcat(values: seq<ValuePair>, fs: seq<Filename>, gs: seq<Filename>)
    requires Ranked(values, fs) && Ranked(values, gs)
    requires forall f, g :: f in fs && g in gs ==> RankedBefore(values, f, g)
    ensures Ranked(values, fs + gs)
  {
    var r := fs + gs;
    forall t1, t2 | 0 <= t1 < t2 < |r| ensures RankedBefore(values, r[t1], r[t2]) {
      if t2 < |fs| {
        assert r[t1] == fs[t1] && r[t2] == fs[t2];
      } else if t1 >= |fs| {
        assert r[t1] == gs[t1 - |fs|] && r[t2] == gs[t2 - |fs|];
      } else {
        assert r[t1] == fs[t1] && fs[t1] in fs;
        assert r[t2] == gs[t2 - |fs|] && gs[t2 - |fs|] in gs;
      }
    }
  }

  // ---------------------------------------------------------------------------
  // The reference group
  // ---------------------------------------------------------------------------

  /** The bucket counts are the key counts of qualifying files, the largest among them the maximum. */
  lemma BucketsMax(values: seq<ValuePair>)
    requires DistinctFiles(values)
    ensures var b := Buckets(PropsCount(values));
            forall c :: c in b.entries ==> 0 < c <= MaxCount(values)
    ensures MaxCount(values) > 0 ==> MaxCount(values) in Buckets(PropsCount(values)).entries
  {
    var cs := PropsCount(values);
    var b := Buckets(cs);
    BucketsCounts(cs);
    PropsCountFiles(values);
    MaxCountFiles(values);
    forall c | c in b.entries ensures 0 < c <= MaxCount(values) {
      var a :| 0 <= a < |cs| && cs[a].1 == c;
      assert cs[a] in cs;
    }
    if MaxCount(values) > 0 {
      var f := values[FirstWith(values, MaxCount(values))].0;
      assert (f, KeyCount(values, f)) in cs;
    }
  }

  /** After the descending sort, the first bucket is that of the maximum count. */
  lemma TopCount(values: seq<ValuePair>)
    requires DistinctFiles(values)
    requires Buckets(PropsCount(values)).keys != []
    ensures SortDesc(Buckets(PropsCount(values)).keys)[0] == MaxCount(values)
  {
    var b := Buckets(PropsCount(values));
    var order := SortDesc(b.keys);
    BucketsMax(values);
    assert order[0] in order;
    var m := MaxCount(values);
    assert m in order;
    var k :| 0 <= k < |order| && order[k] == m;
    assert order[0] >= order[k];
  }

  /** The reference file, the first file of the top bucket, is the first file with the most
      keys, so its keys are the reference keys. */
  lemma Representative(values: seq<ValuePair>)
    requires DistinctFiles(values) && MaxCount(values) > 0
    ensures MaxCount(values) in Buckets(PropsCount(values)).entries
    ensures ObjectKeys(Find(values, Buckets(PropsCount(values)).entries[MaxCount(values)][0])) == RefKeys(values)
  {
    var cs := PropsCount(values);
    var b := Buckets(cs);
    var m := MaxCount(values);
    var ns := Names(values);
    BucketsMax(values);
    BucketsMembers(cs);
    PropsCountFiles(values);
    MaxCountFiles(values);
    var bucket := b.entries[m];
    var f0 := bucket[0];
    assert f0 in bucket;
    assert (f0, m) in cs;
    var i0 := FirstIndex(ns, f0);
    FindFirst(values, f0);
    var r := FirstWith(values, m);
    assert r <= i0;
    var g := values[r].0;
    assert ns[r] == g;
    FirstIndexOfDistinct(ns, r);
    assert (g, m) in cs;
    assert g in bucket;
    BucketOrder(values, m);
    var k :| 0 <= k < |bucket| && bucket[k] == g;
    OrderedHeadFirst(bucket, ns, k);
  }

  /** The head of a list in first-occurrence order occurs first. */
  lemma OrderedHeadFirst<T>(r: seq<T>, s: seq<T>, k: nat)
    requires FirstOccurrenceOrder(r, s) && k < |r|
    ensures r[0] in s && r[k] in s && FirstIndex(s, r[0]) <= FirstIndex(s, r[k])
  {
    assert r[0] in r && r[k] in r;
  }

  lemma TwoMembers<T>(s: seq<T>, x: T, y: T)
    requires x in s && y in s && x != y
    ensures |s| >= 2
  {
  }

  /** A lagging file means there are at least two buckets. */
  lemma LaggingNeedsTwoCounts(values: seq<ValuePair>, f: Filename)
    requires DistinctFiles(values) && Lagging(values, f)
    ensures |Buckets(PropsCount(values)).keys| >= 2
  {
    var cs := PropsCount(values);
    PropsCountFiles(values);
    BucketsCounts(cs);
    BucketsMax(values);
    MaxCountFiles(values);
    assert (f, KeyCount(values, f)) in cs;
    TwoMembers(Buckets(cs).keys, KeyCount(values, f), MaxCount(values));
  }

  lemma BucketsBucketed(values: seq<ValuePair>)
    requires DistinctFiles(values)
    ensures Bucketed(values, Buckets(PropsCount(values)))
  {
    var cs := PropsCount(values);
    var b := Buckets(cs);
    PropsCountFiles(values);
    BucketsMembers(cs);
    forall c, f | c in b.entries && f in b.entries[c] ensures KeyCount(values, f) == c {
      assert (f, c) in cs;
    }
  }

  /** `inspectMissingProp` reports the issue of each lagging file, each once, in reporting order. */
  lemma InspectShape(key: PhraseKey, values: seq<ValuePair>) returns (files: seq<Filename>)
    requires DistinctFiles(values)
    ensures InspectSpec(key, values) == IssuesFor(key, values, RefKeys(values), files)
    ensures LaggingList(values, files)
  {
    if |Buckets(PropsCount(values)).keys| <= 1 {
      files := [];
      forall f ensures !Lagging(values, f) {
        if Lagging(values, f) {
          LaggingNeedsTwoCounts(values, f);
          assert false;
        }
      }
    } else {
      files := TroubleShape(key, values);
    }
  }

  /** With two buckets or more, the trouble files are the lagging files. */
  lemma TroubleShape(key: PhraseKey, values: seq<ValuePair>) returns (files: seq<Filename>)
    requires DistinctFiles(values)
    requires |Buckets(PropsCount(values)).keys| > 1
    ensures InspectSpec(key, values) == IssuesFor(key, values, RefKeys(values), files)
    ensures LaggingList(values, files)
  {
    var b := Buckets(PropsCount(values));
    var os := SortDesc(b.keys)[1..];
    files := TroubleFiles(b, os);
    TroubleSpec(key, values);
    TroubleList(values, os);
  }

  /** With two buckets or more, the issues are those of the trouble files against the reference keys. */
  lemma TroubleSpec(key: PhraseKey, values: seq<ValuePair>)
    requires DistinctFiles(values)
    requires |Buckets(PropsCount(values)).keys| > 1
    ensures var b := Buckets(PropsCount(values));
            InspectSpec(key, values) == IssuesFor(key, values, RefKeys(values), TroubleFiles(b, SortDesc(b.keys)[1..]))
  {
    var b := Buckets(PropsCount(values));
    HeadIn(b.keys);
    BucketsMax(values);
    TopCount(values);
    Representative(values);
    InspectUnfold(key, values);
  }

  /** With two buckets or more, the trouble files are the lagging files, each once, in reporting order. */
  lemma TroubleList(values: seq<ValuePair>, os: seq<nat>)
    requires DistinctFiles(values)
    requires var b := Buckets(PropsCount(values));
             |b.keys| > 1 && os == SortDesc(b.keys)[1..]
    ensures LaggingList(values, TroubleFiles(Buckets(PropsCount(values)), os))
  {
    var b := Buckets(PropsCount(values));
    TroubleBuckets(values, os);
    BucketsBucketed(values);
    TroubleMembers(values, b, os);
    TroubleDistinct(values, b, os);
    TroubleRanked(values, b, os);
    LaggingTrouble(values, os, TroubleFiles(b, os));
  }

  /** The trouble buckets: present, each in input order, their counts strictly descending. */
  lemma TroubleBuckets(values: seq<ValuePair>, os: seq<nat>)
    requires DistinctFiles(values)
    requires var b := Buckets(PropsCount(values));
             |b.keys| > 1 && os == SortDesc(b.keys)[1..]
    ensures var b := Buckets(PropsCount(values));
            forall c :: c in os ==> c in b.entries && NoDuplicates(b.entries[c]) && FirstOccurrenceOrder(b.entries[c], Names(values))
    ensures NoDuplicates(os)
    ensures forall i, j :: 0 <= i < j < |os| ==> os[i] > os[j]
  {
    var b := Buckets(PropsCount(values));
    var order := SortDesc(b.keys);
    forall c | c in os ensures c in b.entries && NoDuplicates(b.entries[c]) && FirstOccurrenceOrder(b.entries[c], Names(values)) {
      assert c in order;
      BucketOrder(values, c);
      OrderedNoDuplicates(b.entries[c], Names(values));
    }
    StrictTail(order);
  }

  /** The tail of a descending list without repeats is strictly descending and without repeats. */
  lemma StrictTail(order: seq<nat>)
    requires Descending(order) && NoDuplicates(order) && order != []
    ensures NoDuplicates(order[1..])
    ensures forall i, j :: 0 <= i < j < |order[1..]| ==> order[1..][i] > order[1..][j]
  {
    forall i, j | 0 <= i < j < |order[1..]| ensures order[1..][i] > order[1..][j] && order[1..][i] != order[1..][j] {
      assert order[1..][i] == order[i + 1] && order[1..][j] == order[j + 1];
    }
  }

  /** Every file of a bucket qualifies. */
  predicate BucketsQualify(values: seq<ValuePair>, b: OrderedMap<nat, seq<Filename>>) {
    forall c, f :: c in b.entries && f in b.entries[c] ==> QualifiesFile(values, f)
  }

  /** Every qualifying file is in the bucket of its key count. */
  ghost predicate BucketsComplete(values: seq<ValuePair>, b: OrderedMap<nat, seq<Filename>>) {
    forall f :: QualifiesFile(values, f) ==> KeyCount(values, f) in b.entries && f in b.entries[KeyCount(values, f)]
  }

  lemma BucketsExact(values: seq<ValuePair>)
    requires DistinctFiles(values)
    ensures BucketsQualify(values, Buckets(PropsCount(values)))
    ensures BucketsComplete(values, Buckets(PropsCount(values)))
  {
    var cs := PropsCount(values);
    PropsCountFiles(values);
    BucketsCounts(cs);
    BucketsMembers(cs);
  }

  /** A file of a bucket after the first has fewer keys than the most. */
  lemma LaggingForward(values: seq<ValuePair>, b: OrderedMap<nat, seq<Filename>>, order: seq<nat>)
    requires Bucketed(values, b) && BucketsQualify(values, b)
    requires order != [] && order[0] == MaxCount(values) && NoDuplicates(order)
    requires forall c :: c in order ==> c in b.entries
    requires forall c :: c in b.entries ==> c <= MaxCount(values)
    ensures forall f :: f in TroubleFiles(b, order[1..]) ==> Lagging(values, f)
  {
    var os := order[1..];
    assert forall c :: c in os ==> c in order;
    TroubleMembers(values, b, os);
    forall f | f in TroubleFiles(b, os) ensures Lagging(values, f) {
      var c := KeyCount(values, f);
      var k :| 0 <= k < |os| && os[k] == c;
      assert order[k + 1] == c;
    }
  }

  /** A lagging file is in a bucket after the first. */
  lemma LaggingBackward(values: seq<ValuePair>, b: OrderedMap<nat, seq<Filename>>, order: seq<nat>)
    requires Bucketed(values, b) && BucketsComplete(values, b)
    requires order != [] && order[0] == MaxCount(values)
    requires forall c :: c in order <==> c in b.entries
    ensures forall c :: c in order[1..] ==> c in b.entries
    ensures forall f :: Lagging(values, f) ==> f in TroubleFiles(b, order[1..])
  {
    var os := order[1..];
    assert forall c :: c in os ==> c in order;
    TroubleMembers(values, b, os);
    forall f | Lagging(values, f) ensures f in TroubleFiles(b, os) {
      var c := KeyCount(values, f);
      var k :| 0 <= k < |order| && order[k] == c;
      assert k != 0;
      assert os[k - 1] == c;
    }
  }

  lemma LaggingTrouble(values: seq<ValuePair>, os: seq<nat>, files: seq<Filename>)
    requires DistinctFiles(values)
    requires var b := Buckets(PropsCount(values));
             |b.keys| > 1 && os == SortDesc(b.keys)[1..] && files == TroubleFiles(b, os)
    ensures forall f :: f in files ==> Lagging(values, f)
    ensures forall f :: Lagging(values, f) ==> f in files
  {
    var b := Buckets(PropsCount(values));
    var order := SortDesc(b.keys);
    BucketsExact(values);
    BucketsMax(values);
    TopCount(values);
    BucketsBucketed(values);
    LaggingForward(values, b, order);
    LaggingBackward(values, b, order);
  }

  // ---------------------------------------------------------------------------
  // What inspectMissingProp promises
  // ---------------------------------------------------------------------------

  lemma FilesOfIssues(key: PhraseKey, values: seq<ValuePair>, refKeys: seq<string>, files: seq<Filename>)
    ensures FilesOf(IssuesFor(key, values, refKeys, files)) == files
  {
  }

  /** Every issue carries the phrase key it was found for, whatever the values. */
  lemma InspectKeys(key: PhraseKey, values: seq<ValuePair>)
    ensures forall issue :: issue in InspectSpec(key, values) ==> issue.key == key
  {
    var b := Buckets(PropsCount(values));
    if |b.keys| > 1 {
      var order := SortDesc(b.keys);
      InspectUnfold(key, values);
      IssuesForKeys(key, values, ObjectKeys(Find(values, b.entries[order[0]][0])), TroubleFiles(b, order[1..]));
    }
  }

  lemma IssuesForKeys(key: PhraseKey, values: seq<ValuePair>, refKeys: seq<string>, files: seq<Filename>)
    ensures forall issue :: issue in IssuesFor(key, values, refKeys, files) ==> issue.key == key
  {
    var r := IssuesFor(key, values, refKeys, files);
    forall issue | issue in r ensures issue.key == key {
      var t :| 0 <= t < |r| && r[t] == issue;
    }
  }

  /** Every issue is about a lagging file: it carries the phrase key and code 1011 and
      lists the reference keys the file's value lacks. */
  lemma InspectReportsLagging(key: PhraseKey, values: seq<ValuePair>)
    requires DistinctFiles(values)
    ensures var r := InspectSpec(key, values);
            forall t :: 0 <= t < |r| ==>
              Lagging(values, r[t].file) && r[t].key == key && r[t].issue.code.Value() == 1011 &&
              r[t].issue.props == DifferenceOf(RefKeys(values), ObjectKeys(Find(values, r[t].file)))
  {
    var files := InspectShape(key, values);
  }

  /** Every lagging file is reported. */
  lemma InspectCoversLagging(key: PhraseKey, values: seq<ValuePair>)
    requires DistinctFiles(values)
    ensures forall f :: Lagging(values, f) ==> f in FilesOf(InspectSpec(key, values))
  {
    var files := InspectShape(key, values);
    FilesOfIssues(key, values, RefKeys(values), files);
  }

  /** No file is reported twice. */
  lemma InspectReportsOnce(key: PhraseKey, values: seq<ValuePair>)
    requires DistinctFiles(values)
    ensures NoDuplicates(FilesOf(InspectSpec(key, values)))
  {
    var files := InspectShape(key, values);
    FilesOfIssues(key, values, RefKeys(values), files);
  }

  /** Files with more keys are reported first; files with as many keys in input order. */
  lemma InspectOrder(key: PhraseKey, values: seq<ValuePair>)
    requires DistinctFiles(values)
    ensures Ranked(values, FilesOf(InspectSpec(key, values)))
  {
    var files := InspectShape(key, values);
    FilesOfIssues(key, values, RefKeys(values), files);
  }

  /** Files that are null, not objects, arrays or empty objects, and files with the most
      keys, are never reported. */
  lemma InspectSkips(key: PhraseKey, values: seq<ValuePair>)
    requires DistinctFiles(values)
    ensures forall i :: 0 <= i < |values| && (!Qualifies(values[i].1) || |values[i].1.keys| == MaxCount(values)) ==>
              values[i].0 !in FilesOf(InspectSpec(key, values))
  {
    var files := InspectShape(key, values);
    FilesOfIssues(key, values, RefKeys(values), files);
    forall i | 0 <= i < |values| && values[i].0 in files
      ensures Qualifies(values[i].1) && |values[i].1.keys| != MaxCount(values)
    {
      FindDistinct(values, i);
    }
  }

  /** Nothing is reported exactly when every qualifying value has the same number of keys,
      that is when there are fewer than two key counts. */
  lemma InspectEmpty(key: PhraseKey, values: seq<ValuePair>)
    requires DistinctFiles(values)
    ensures InspectSpec(key, values) == [] <==> AllSameCount(values)
  {
    var files := InspectShape(key, values);
    MaxCountFiles(values);
    var m := MaxCount(values);
    if InspectSpec(key, values) == [] {
      assert files == [];
      forall i, j | 0 <= i < |values| && 0 <= j < |values| && Qualifies(values[i].1) && Qualifies(values[j].1)
        ensures |values[i].1.keys| == |values[j].1.keys|
      {
        FindDistinct(values, i);
        FindDistinct(values, j);
        assert Names(values)[i] == values[i].0 && Names(values)[j] == values[j].0;
        assert !Lagging(values, values[i].0) && !Lagging(values, values[j].0);
      }
    }
    if AllSameCount(values) {
      AllSameNoLagging(values);
      assert forall f :: f !in files;
      NoMembersEmpty(files);
    }
  }

  /** When all qualifying values have as many keys, every qualifying file has the most keys. */
  lemma AllSameNoLagging(values: seq<ValuePair>)
    requires DistinctFiles(values) && AllSameCount(values)
    ensures forall f :: !Lagging(values, f)
  {
    MaxCountFiles(values);
    var m := MaxCount(values);
    forall f | QualifiesFile(values, f) ensures KeyCount(values, f) == m {
      var i := FirstIndex(Names(values), f);
      FindFirst(values, f);
      var w := FirstWith(values, m);
      assert Qualifies(values[i].1) && Qualifies(values[w].1);
    }
  }

  /** Each issue lists at least as many properties as the file lacks keys, so never none. */
  lemma InspectPropsCount(key: PhraseKey, values: seq<ValuePair>)
    requires DistinctFiles(values) && WellShaped(values)
    ensures var r := InspectSpec(key, values);
            forall t :: 0 <= t < |r| ==>
              |r[t].issue.props| >= MaxCount(values) - KeyCount(values, r[t].file) && r[t].issue.props != []
  {
    var r := InspectSpec(key, values);
    InspectReportsLagging(key, values);
    MaxCountFiles(values);
    forall t | 0 <= t < |r|
      ensures |r[t].issue.props| >= MaxCount(values) - KeyCount(values, r[t].file) && r[t].issue.props != []
    {
      var w := FirstWith(values, MaxCount(values));
      assert RefKeys(values) == values[w].1.keys;
      DifferenceLength(RefKeys(values), ObjectKeys(Find(values, r[t].file)));
    }
  }
}
