/** The values `inspectMissingProp` (src/phraselint.ts:135-192) computes, as functions:
    which files count, how they are bucketed by their number of keys, the order of the
    buckets, the reference keys and the issue reported for each lagging file. */
module Inspection {
  import opened Seqs
  import opened Utils
  import opened Phrases

  /** The first components of a list of pairs, in order. This is `Utils.KeysOf` with the
      first projection, written out so that lemmas about it need no function value. */
  function Names<X>(ps: seq<(string, X)>): (ns: seq<string>)
    ensures |ns| == |ps|
    ensures forall i :: 0 <= i < |ps| ==> ns[i] == ps[i].0
  {
    if ps == [] then [] else Names(ps[..|ps| - 1]) + [ps[|ps| - 1].0]
  }

  /** The filter of `propsCount`: a non-null, non-array object with at least one key. */
  predicate Qualifies(v: PhraseValue) {
    v.Object? && |v.keys| > 0
  }

  /** `Object.keys(value)` for the values it is applied to; anything else has no keys here. */
  function ObjectKeys(v: PhraseValue): seq<string> {
    if v.Object? then v.keys else []
  }

  /** `[...new Map(entries)]` for the list `propsCount` is built from: each qualifying file
      with its number of keys, in input order. */
  function PropsCount(values: seq<ValuePair>): seq<(Filename, nat)>
  {
    if values == [] then []
    else
      var p := PropsCount(values[..|values| - 1]);
      var x := values[|values| - 1];
      if Qualifies(x.1) then p + [(x.0, |x.1.keys|)] else p
  }

  function CountOfEntry(e: (Filename, nat)): nat {
    e.1
  }

  /** The value of `byCount`: for each key count, in order of first appearance, the files
      with that many keys, in order. */
  function Buckets(counts: seq<(Filename, nat)>): (b: OrderedMap<nat, seq<Filename>>)
    ensures NoDuplicates(b.keys)
    ensures forall c :: c in b.keys ==> c in b.entries && b.entries[c] != []
    ensures forall c :: c in b.entries ==> c in b.keys
  {
    GroupedKeys(counts, CountOfEntry);
    GroupedNonEmpty(counts, CountOfEntry);
    FileLists(Grouped(counts, CountOfEntry))
  }

  /** A grouping of (file, count) pairs with each group reduced to its file names. */
  function FileLists(g: OrderedMap<nat, seq<(Filename, nat)>>): OrderedMap<nat, seq<Filename>>
  {
    OrderedMap(g.keys, map c | c in g.entries :: Names(g.entries[c]))
  }

  lemma FileListsPut(g: OrderedMap<nat, seq<(Filename, nat)>>, c: nat, grp: seq<(Filename, nat)>)
    ensures FileLists(Put(g, c, grp)) == Put(FileLists(g), c, Names(grp))
  {
    assert FileLists(Put(g, c, grp)).entries == Put(FileLists(g), c, Names(grp)).entries;
  }

  /** One iteration of the `byCount` loop: the file is appended to its count's list. */
  lemma BucketsStep(counts: seq<(Filename, nat)>, i: nat)
    requires i < |counts|
    ensures var b := Buckets(counts[..i]);
            var c := counts[i].1;
            Buckets(counts[..i + 1]) == Put(b, c, (if c in b.entries then b.entries[c] else []) + [counts[i].0])
  {
    var g := Grouped(counts[..i], CountOfEntry);
    var c := counts[i].1;
    GroupedPut(counts, CountOfEntry, i);
    assert CountOfEntry(counts[i]) == c;
    var prev := if c in g.entries then g.entries[c] else [];
    FileListsPut(g, c, prev + [counts[i]]);
    assert (prev + [counts[i]])[..|prev|] == prev;
  }

  /** Insertion of `x` into a list in descending order, before the first element not above it. */
  function Insert(x: nat, s: seq<nat>): (r: seq<nat>)
    ensures multiset(r) == multiset(s) + multiset{x}
    ensures forall y :: y in r <==> y == x || y in s
  {
    if s == [] then [x]
    else if x >= s[0] then [x] + s
    else
      assert s == [s[0]] + s[1..];
      [s[0]] + Insert(x, s[1..])
  }

  predicate Descending(s: seq<nat>) {
    forall i, j :: 0 <= i < j < |s| ==> s[i] >= s[j]
  }

  /** Insertion keeps a list in descending order. */
  lemma {:induction false} InsertDescending(x: nat, s: seq<nat>)
    requires Descending(s)
    ensures Descending(Insert(x, s))
  {
    if s != [] {
      if x >= s[0] {
        assert forall i :: 0 <= i < |s| ==> s[0] >= s[i];
      } else {
        var t := Insert(x, s[1..]);
        InsertDescending(x, s[1..]);
        assert forall y :: y in s[1..] ==> y <= s[0];
        assert forall i :: 0 <= i < |t| ==> t[i] in t;
        assert forall i :: 0 <= i < |t| ==> t[i] <= s[0];
      }
    }
  }

  /** Inserting a new element into a list without repeats gives a list without repeats. */
  lemma {:induction false} InsertDistinct(x: nat, s: seq<nat>)
    requires x !in s && NoDuplicates(s)
    ensures NoDuplicates(Insert(x, s))
  {
    if s != [] && x < s[0] {
      assert s == [s[0]] + s[1..];
      InsertDistinct(x, s[1..]);
      assert s[0] !in Insert(x, s[1..]);
    }
  }

  /** `sort((a, b) => b[0] - a[0])` on the bucket counts: largest count first. */
  function SortDesc(s: seq<nat>): (r: seq<nat>)
    ensures Descending(r)
    ensures multiset(r) == multiset(s)
    ensures forall y :: y in r <==> y in s
    ensures NoDuplicates(s) ==> NoDuplicates(r)
  {
    if s == [] then []
    else
      assert s == [s[0]] + s[1..];
      var t := SortDesc(s[1..]);
      InsertDescending(s[0], t);
      if NoDuplicates(s) then
        assert s[0] !in s[1..] && NoDuplicates(s[1..]);
        InsertDistinct(s[0], t);
        Insert(s[0], t)
      else Insert(s[0], t)
  }

  /** `values.find(it => it[0] === file)`, giving the value of the first pair for `file`;
      a file that is not listed gives `Null`. */
  function Find(values: seq<ValuePair>, file: Filename): PhraseValue
  {
    if values == [] then Null
    else if values[0].0 == file then values[0].1
    else Find(values[1..], file)
  }

  /** The issue reported for `file`: the reference keys its value lacks. */
  function IssueFor(key: PhraseKey, values: seq<ValuePair>, refKeys: seq<string>, file: Filename): Issue
  {
    Issue(file, key, IssueMissingProp(MissingProp, DifferenceOf(refKeys, ObjectKeys(Find(values, file)))))
  }

  function IssuesFor(key: PhraseKey, values: seq<ValuePair>, refKeys: seq<string>, files: seq<Filename>): (r: seq<Issue>)
    ensures |r| == |files|
    ensures forall t :: 0 <= t < |files| ==> r[t] == IssueFor(key, values, refKeys, files[t])
  {
    if files == [] then []
    else IssuesFor(key, values, refKeys, files[..|files| - 1]) + [IssueFor(key, values, refKeys, files[|files| - 1])]
  }

  /** One more file reported. */
  lemma IssuesForSnoc(key: PhraseKey, values: seq<ValuePair>, refKeys: seq<string>, files: seq<Filename>, file: Filename)
    ensures IssuesFor(key, values, refKeys, files + [file]) ==
            IssuesFor(key, values, refKeys, files) + [IssueFor(key, values, refKeys, file)]
  {
    assert (files + [file])[..|files|] == files;
  }

  /** Two runs of files reported one after the other. */
  lemma IssuesForConcat(key: PhraseKey, values: seq<ValuePair>, refKeys: seq<string>, files: seq<Filename>, more: seq<Filename>)
    ensures IssuesFor(key, values, refKeys, files + more) ==
            IssuesFor(key, values, refKeys, files) + IssuesFor(key, values, refKeys, more)
  {
    var l := IssuesFor(key, values, refKeys, files + more);
    var r := IssuesFor(key, values, refKeys, files) + IssuesFor(key, values, refKeys, more);
    assert |l| == |r|;
    forall t | 0 <= t < |l|
      ensures l[t] == r[t]
    {
      if t < |files| {
        assert (files + more)[t] == files[t];
      } else {
        assert (files + more)[t] == more[t - |files|];
      }
    }
  }

  /** The files of the trouble buckets, bucket after bucket. */
  function TroubleFiles(b: OrderedMap<nat, seq<Filename>>, counts: seq<nat>): seq<Filename>
    requires forall c :: c in counts ==> c in b.entries
  {
    if counts == [] then []
    else TroubleFiles(b, counts[..|counts| - 1]) + b.entries[counts[|counts| - 1]]
  }

  /** One more bucket visited. */
  lemma TroubleFilesStep(b: OrderedMap<nat, seq<Filename>>, counts: seq<nat>, g: nat)
    requires forall c :: c in counts ==> c in b.entries
    requires g < |counts|
    ensures counts[g] in b.entries
    ensures TroubleFiles(b, counts[..g + 1]) == TroubleFiles(b, counts[..g]) + b.entries[counts[g]]
  {
    assert counts[g] in counts;
    assert counts[..g + 1][..g] == counts[..g];
  }

  /** The value of `inspectMissingProp(key, values)`. */
  function InspectSpec(key: PhraseKey, values: seq<ValuePair>): seq<Issue>
  {
    var byCount := Buckets(PropsCount(values));
    if |byCount.keys| <= 1 then []
    else
      var order := SortDesc(byCount.keys);
      assert order[0] in order;
      var refFile := byCount.entries[order[0]][0];
      var refKeys := ObjectKeys(Find(values, refFile));
      IssuesFor(key, values, refKeys, TroubleFiles(byCount, order[1..]))
  }

  lemma InspectUnfold(key: PhraseKey, values: seq<ValuePair>)
    requires |Buckets(PropsCount(values)).keys| > 1
    ensures var b := Buckets(PropsCount(values));
            var order := SortDesc(b.keys);
            order[0] in b.entries && (forall c :: c in order[1..] ==> c in b.entries) &&
            InspectSpec(key, values) ==
              IssuesFor(key, values, ObjectKeys(Find(values, b.entries[order[0]][0])), TroubleFiles(b, order[1..]))
  {
    var b := Buckets(PropsCount(values));
    var order := SortDesc(b.keys);
    assert order[0] in order;
    assert forall c :: c in order[1..] ==> c in order;
  }
}
