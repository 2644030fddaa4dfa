/** The two cases of tests/missingProp.test.ts, evaluated on the model of `inspect`. */
module InspectionScenarios {
  import opened Seqs
  import opened Utils
  import opened Phrases
  import opened Inspection
  import opened InspectionProperties

  // Evaluation helpers for short literal lists

  lemma SortTwo(x: nat, y: nat)
    requires x > y
    ensures SortDesc([x, y]) == [x, y]
  {
    assert [x, y][1..] == [y];
    assert SortDesc([y]) == [y];
  }

  lemma SortThree(x: nat, y: nat, z: nat)
    requires x > y > z
    ensures SortDesc([x, y, z]) == [x, y, z]
  {
    assert [x, y, z][1..] == [y, z];
    SortTwo(y, z);
  }

  lemma TroubleOne(b: OrderedMap<nat, seq<Filename>>, c: nat)
    requires c in b.entries
    ensures TroubleFiles(b, [c]) == b.entries[c]
  {
    assert [c][..0] == [];
  }

  lemma TroubleTwo(b: OrderedMap<nat, seq<Filename>>, c: nat, d: nat)
    requires c in b.entries && d in b.entries
    ensures TroubleFiles(b, [c, d]) == b.entries[c] + b.entries[d]
  {
    assert [c, d][..1] == [c];
    TroubleOne(b, c);
  }

  lemma IssuesTwo(key: PhraseKey, values: seq<ValuePair>, refKeys: seq<string>, f: Filename, g: Filename)
    ensures IssuesFor(key, values, refKeys, [f, g]) == [IssueFor(key, values, refKeys, f), IssueFor(key, values, refKeys, g)]
  {
  }

  lemma CountsThree(x: ValuePair, y: ValuePair, z: ValuePair)
    requires Qualifies(x.1) && Qualifies(y.1) && Qualifies(z.1)
    ensures PropsCount([x, y, z]) == [(x.0, |x.1.keys|), (y.0, |y.1.keys|), (z.0, |z.1.keys|)]
  {
    var vs := [x, y, z];
    assert vs[..2] == [x, y];
    assert [x, y][..1] == [x];
    assert [x][..0] == [];
    assert PropsCount([x]) == [(x.0, |x.1.keys|)];
    assert PropsCount([x, y]) == [(x.0, |x.1.keys|), (y.0, |y.1.keys|)];
  }

  lemma KeysThree(x: (Filename, nat), y: (Filename, nat), z: (Filename, nat))
    ensures KeysOf([x, y, z], CountOfEntry) == [x.1, y.1, z.1]
  {
  }

  lemma SelectThree(x: (Filename, nat), y: (Filename, nat), z: (Filename, nat), c: nat)
    ensures Select([x, y, z], CountOfEntry, c) ==
      (if x.1 == c then [x] else []) + (if y.1 == c then [y] else []) + (if z.1 == c then [z] else [])
  {
    var cs := [x, y, z];
    assert cs[..2] == [x, y];
    assert [x, y][..1] == [x];
    assert [x][..0] == [];
    assert Select([x], CountOfEntry, c) == (if x.1 == c then [x] else []);
    assert Select([x, y], CountOfEntry, c) == (if x.1 == c then [x] else []) + (if y.1 == c then [y] else []);
  }

  lemma FindThree(x: ValuePair, y: ValuePair, z: ValuePair)
    requires x.0 != y.0 && x.0 != z.0 && y.0 != z.0
    ensures Find([x, y, z], x.0) == x.1
    ensures Find([x, y, z], y.0) == y.1
    ensures Find([x, y, z], z.0) == z.1
  {
    var vs := [x, y, z];
    assert vs[1..] == [y, z];
    assert [y, z][1..] == [z];
    assert Find([z], z.0) == z.1;
    assert Find([y, z], z.0) == z.1;
    assert Find([y, z], y.0) == y.1;
  }

  lemma DifferentNames()
    ensures "en.json" != "sv.json" && "en.json" != "fi.json" && "sv.json" != "fi.json"
  {
    assert "en.json"[0] != "sv.json"[0] && "en.json"[0] != "fi.json"[0] && "sv.json"[0] != "fi.json"[0];
  }

  // ---------------------------------------------------------------------------
  // Two locales with keys `one` and `two`, one with only `one`
  // ---------------------------------------------------------------------------

  function Locales1(): seq<ValuePair> {
    [("en.json", Object(["one", "two"])), ("sv.json", Object(["one", "two"])), ("fi.json", Object(["one"]))]
  }

  lemma Counts1()
    ensures PropsCount(Locales1()) == [("en.json", 2), ("sv.json", 2), ("fi.json", 1)]
  {
    CountsThree(Locales1()[0], Locales1()[1], Locales1()[2]);
    assert Locales1() == [Locales1()[0], Locales1()[1], Locales1()[2]];
  }

  lemma Buckets1()
    ensures Buckets(PropsCount(Locales1())).keys == [2, 1]
    ensures Buckets(PropsCount(Locales1())).entries[2] == ["en.json", "sv.json"]
    ensures Buckets(PropsCount(Locales1())).entries[1] == ["fi.json"]
  {
    Counts1();
    BucketKeysOfPair(("en.json", 2), ("sv.json", 2), ("fi.json", 1));
    BucketOfPair(("en.json", 2), ("sv.json", 2), ("fi.json", 1));
  }

  /** Two files sharing a count, then one with another count, make two buckets. */
  lemma BucketKeysOfPair(x: (Filename, nat), y: (Filename, nat), z: (Filename, nat))
    requires x.1 == y.1 && x.1 != z.1
    ensures Buckets([x, y, z]).keys == [x.1, z.1]
  {
    KeysThree(x, y, z);
    DedupPair(x.1, z.1);
  }

  lemma DedupPair(c: nat, d: nat)
    requires c != d
    ensures Dedup([c, c, d]) == [c, d]
  {
    assert [c][..0] == [];
    assert Dedup([c]) == [c];
    assert [c, c][..1] == [c];
    assert Dedup([c, c]) == [c];
    assert [c, c, d][..2] == [c, c];
  }

  lemma BucketOfPair(x: (Filename, nat), y: (Filename, nat), z: (Filename, nat))
    requires x.1 == y.1 && x.1 != z.1
    ensures x.1 in Buckets([x, y, z]).entries && Buckets([x, y, z]).entries[x.1] == [x.0, y.0]
    ensures z.1 in Buckets([x, y, z]).entries && Buckets([x, y, z]).entries[z.1] == [z.0]
  {
    SharedBucket(x, y, z);
    SingleBucket(x, y, z);
  }

  lemma SharedBucket(x: (Filename, nat), y: (Filename, nat), z: (Filename, nat))
    requires x.1 == y.1 && x.1 != z.1
    ensures x.1 in Buckets([x, y, z]).entries && Buckets([x, y, z]).entries[x.1] == [x.0, y.0]
  {
    KeysThree(x, y, z);
    SelectThree(x, y, z, x.1);
    assert Select([x, y, z], CountOfEntry, x.1) == [x, y];
    assert [x, y][..1] == [x];
    assert Names([x, y]) == [x.0, y.0];
  }

  lemma SingleBucket(x: (Filename, nat), y: (Filename, nat), z: (Filename, nat))
    requires x.1 == y.1 && x.1 != z.1
    ensures z.1 in Buckets([x, y, z]).entries && Buckets([x, y, z]).entries[z.1] == [z.0]
  {
    KeysThree(x, y, z);
    SelectThree(x, y, z, z.1);
    assert Select([x, y, z], CountOfEntry, z.1) == [z];
  }

  lemma Missing1()
    ensures DifferenceOf(["one", "two"], ["one"]) == ["two"]
  {
    var ref: seq<string> := ["one", "two"];
    assert ref[..1] == ["one"];
    assert Dedup(ref[..1]) == ["one"];
    assert Dedup(ref) == ref;
    assert Without(ref[..1], ["one"]) == [];
    assert Without(ref, ["one"]) == ["two"];
  }

  /** Only fi.json is reported, missing `two`. */
  lemma OneMissing()
    ensures InspectSpec("my-key", Locales1()) == [Issue("fi.json", "my-key", IssueMissingProp(MissingProp, ["two"]))]
  {
    var vs := Locales1();
    var b := Buckets(PropsCount(vs));
    Buckets1();
    SortTwo(2, 1);
    TroubleOne(b, 1);
    InspectUnfold("my-key", vs);
    assert [2, 1][1..] == [1];
    DifferentNames();
    FindThree(vs[0], vs[1], vs[2]);
    assert vs == [vs[0], vs[1], vs[2]];
    Missing1();
    assert IssuesFor("my-key", vs, ["one", "two"], ["fi.json"]) == [IssueFor("my-key", vs, ["one", "two"], "fi.json")];
  }

  // ---------------------------------------------------------------------------
  // Locales with three, two and one of the keys `one`, `two`, `three`
  // ---------------------------------------------------------------------------

  function Locales2(): seq<ValuePair> {
    [("en.json", Object(["one", "two", "three"])), ("sv.json", Object(["one", "two"])), ("fi.json", Object(["one"]))]
  }

  lemma Counts2()
    ensures PropsCount(Locales2()) == [("en.json", 3), ("sv.json", 2), ("fi.json", 1)]
  {
    CountsThree(Locales2()[0], Locales2()[1], Locales2()[2]);
    assert Locales2() == [Locales2()[0], Locales2()[1], Locales2()[2]];
  }

  lemma Buckets2()
    ensures Buckets(PropsCount(Locales2())).keys == [3, 2, 1]
    ensures Buckets(PropsCount(Locales2())).entries[3] == ["en.json"]
    ensures Buckets(PropsCount(Locales2())).entries[2] == ["sv.json"]
    ensures Buckets(PropsCount(Locales2())).entries[1] == ["fi.json"]
  {
    Counts2();
    BucketsOfDistinct(("en.json", 3), ("sv.json", 2), ("fi.json", 1));
  }

  /** Three files with three different counts make three buckets of one file each. */
  lemma BucketsOfDistinct(x: (Filename, nat), y: (Filename, nat), z: (Filename, nat))
    requires x.1 != y.1 && x.1 != z.1 && y.1 != z.1
    ensures Buckets([x, y, z]).keys == [x.1, y.1, z.1]
    ensures Buckets([x, y, z]).entries[x.1] == [x.0]
    ensures Buckets([x, y, z]).entries[y.1] == [y.0]
    ensures Buckets([x, y, z]).entries[z.1] == [z.0]
  {
    BucketKeysOfDistinct(x, y, z);
    BucketOfOne(x, y, z, x);
    BucketOfOne(x, y, z, y);
    BucketOfOne(x, y, z, z);
  }

  lemma BucketKeysOfDistinct(x: (Filename, nat), y: (Filename, nat), z: (Filename, nat))
    requires x.1 != y.1 && x.1 != z.1 && y.1 != z.1
    ensures Buckets([x, y, z]).keys == [x.1, y.1, z.1]
  {
    KeysThree(x, y, z);
    var ks: seq<nat> := [x.1, y.1, z.1];
    DedupOfDistinct(ks);
  }

  lemma BucketOfOne(x: (Filename, nat), y: (Filename, nat), z: (Filename, nat), w: (Filename, nat))
    requires x.1 != y.1 && x.1 != z.1 && y.1 != z.1
    requires w == x || w == y || w == z
    ensures w.1 in Buckets([x, y, z]).entries && Buckets([x, y, z]).entries[w.1] == [w.0]
  {
    KeysThree(x, y, z);
    SelectThree(x, y, z, w.1);
    assert Select([x, y, z], CountOfEntry, w.1) == [w];
  }

  lemma Missing2()
    ensures DifferenceOf(["one", "two", "three"], ["one", "two"]) == ["three"]
    ensures DifferenceOf(["one", "two", "three"], ["one"]) == ["two", "three"]
  {
    var ref: seq<string> := ["one", "two", "three"];
    assert "one"[0] != "two"[0] && "one"[0] != "three"[0] && "two"[1] != "three"[1];
    DedupOfDistinct(ref);
    assert ref[..2] == ["one", "two"];
    assert ref[..2][..1] == ["one"];
    assert ["one"][..0] == [];
    assert Without(ref[..2], ["one"]) == ["two"];
    assert Without(ref, ["one"]) == ["two", "three"];
    assert Without(ref[..2], ["one", "two"]) == [];
    assert Without(ref, ["one", "two"]) == ["three"];
  }

  lemma Shape2()
    ensures InspectSpec("my-key", Locales2()) ==
            IssuesFor("my-key", Locales2(), ObjectKeys(Find(Locales2(), "en.json")), ["sv.json", "fi.json"])
  {
    var vs := Locales2();
    var b := Buckets(PropsCount(vs));
    Buckets2();
    SortThree(3, 2, 1);
    TroubleTwo(b, 2, 1);
    InspectUnfold("my-key", vs);
    assert [3, 2, 1][1..] == [2, 1];
  }

  /** sv.json is reported missing `three`, then fi.json missing `two` and `three`. */
  lemma TwoMissing()
    ensures InspectSpec("my-key", Locales2()) ==
            [Issue("sv.json", "my-key", IssueMissingProp(MissingProp, ["three"])),
             Issue("fi.json", "my-key", IssueMissingProp(MissingProp, ["two", "three"]))]
  {
    var vs := Locales2();
    Shape2();
    DifferentNames();
    FindThree(vs[0], vs[1], vs[2]);
    assert vs == [vs[0], vs[1], vs[2]];
    Missing2();
    var ref := ["one", "two", "three"];
    IssuesTwo("my-key", vs, ref, "sv.json", "fi.json");
  }
}
