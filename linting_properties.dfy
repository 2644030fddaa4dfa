/** What `phraselint` (src/phraselint.ts:67-125) promises: which error it stops with and
    when, and that on success every key of the reference locale with issues has its own
    group holding exactly the issues of that key, in reference-key order. */
module LintingProperties {
  import opened Seqs
  import opened Utils
  import opened Results
  import opened Phrases
  import opened Inspection
  import opened InspectionProperties
  import opened Linting

  // ---------------------------------------------------------------------------
  // Reference definitions
  // ---------------------------------------------------------------------------

  /** The names of a directory's entries are distinct. */
  predicate DistinctEntries(entries: seq<DirEntry>) {
    forall i, j :: 0 <= i < j < |entries| ==> entries[i].name != entries[j].name
  }

  predicate AllParse(files: seq<Filename>, parse: Filename -> ParseOutcome) {
    forall f :: f in files ==> parse(f).Parsed?
  }

  /** `files[i]` is the first of `files` that does not parse. */
  predicate FirstUnparsable(files: seq<Filename>, parse: Filename -> ParseOutcome, i: nat) {
    i < |files| && parse(files[i]).Unparsable? && forall j :: 0 <= j < i ==> parse(files[j]).Parsed?
  }

  /** The value of `key` in a parsed file, `null` when the file has no such key. */
  function ValueIn(parse: Filename -> ParseOutcome, file: Filename, key: PhraseKey): PhraseValue {
    if parse(file).Parsed? then LookupKey(parse(file).json, key) else Null
  }

  /** Every file paired with its value for `key`, in file order. */
  function ValuesOf(files: seq<Filename>, parse: Filename -> ParseOutcome, key: PhraseKey): (values: seq<ValuePair>)
    ensures |values| == |files| && Names(values) == files
    ensures forall i :: 0 <= i < |files| ==> values[i] == (files[i], ValueIn(parse, files[i], key))
  {
    if files == [] then []
    else
      var p := files[..|files| - 1];
      var v := ValuesOf(p, parse, key) + [(files[|files| - 1], ValueIn(parse, files[|files| - 1], key))];
      assert Names(v) == files;
      v
  }

  /** The issues found for one key. */
  function KeyIssues(files: seq<Filename>, parse: Filename -> ParseOutcome, key: PhraseKey): seq<Issue> {
    InspectSpec(key, ValuesOf(files, parse, key))
  }

  /** The keys that have issues, in the order of `keys`: the reference definition, in terms
      of the parsed files. `ReportedBy` is the same over any finder; `ReportedParsed`
      proves the two agree for the finder the key loop uses. */
  function Reported(keys: seq<PhraseKey>, files: seq<Filename>, parse: Filename -> ParseOutcome): (r: seq<PhraseKey>)
    ensures forall k :: k in r ==> k in keys && KeyIssues(files, parse, k) != []
    ensures forall k :: k in keys && KeyIssues(files, parse, k) != [] ==> k in r
  {
    if keys == [] then []
    else
      var k := keys[|keys| - 1];
      var p := keys[..|keys| - 1];
      assert keys == p + [k];
      Reported(p, files, parse) + (if KeyIssues(files, parse, k) != [] then [k] else [])
  }

  // ---------------------------------------------------------------------------
  // Lookup of a key
  // ---------------------------------------------------------------------------

  /** `json[key] ?? null` is the value of the key's entry, `null` when there is none. */
  lemma {:induction false} LookupKeyFound(json: PhraseJson, key: PhraseKey)
    ensures key in Names(json) ==> LookupKey(json, key) == json[FirstIndex(Names(json), key)].1
    ensures key !in Names(json) ==> LookupKey(json, key) == Null
  {
    if json != [] {
      var ns := Names(json);
      assert Names(json[1..]) == ns[1..];
      if json[0].0 != key {
        assert key in ns <==> key in ns[1..];
        LookupKeyFound(json[1..], key);
      }
    }
  }

  // ---------------------------------------------------------------------------
  // The parse loop
  // ---------------------------------------------------------------------------

  /** When every file parses, `jsons` holds each file once, in file order, with its parse. */
  lemma {:induction false} ParseAllOk(files: seq<Filename>, parse: Filename -> ParseOutcome)
    requires AllParse(files, parse)
    ensures ParseAll(files, parse).Ok?
    ensures WellFormedMap(ParseAll(files, parse).value)
    ensures ParseAll(files, parse).value.keys == Dedup(files)
    ensures forall f :: f in ParseAll(files, parse).value.entries <==> f in files
    ensures forall f :: f in files ==> ParseAll(files, parse).value.entries[f] == parse(f).json
  {
    if files != [] {
      var p := files[..|files| - 1];
      var f := files[|files| - 1];
      assert files == p + [f];
      ParseAllOk(p, parse);
      var jsons := ParseAll(p, parse).value;
      PutWellFormed(jsons, f, parse(f).json);
      DedupSnoc(p, f);
    }
  }

  /** The `jsons` map of a run in which every file parses. */
  function Jsons(files: seq<Filename>, parse: Filename -> ParseOutcome): OrderedMap<Filename, PhraseJson>
    requires AllParse(files, parse)
  {
    ParseAllOk(files, parse);
    ParseAll(files, parse).value
  }

  /** The first file that does not parse is the error. */
  lemma ParseAllErr(files: seq<Filename>, parse: Filename -> ParseOutcome, i: nat)
    requires FirstUnparsable(files, parse, i)
    ensures ParseAll(files, parse) == Err(CouldNotParseJsonError(files[i]))
  {
    var p := files[..i];
    ParseAllOk(p, parse);
    assert files[..i + 1][..i] == p;
    ParseAllErrPrefix(files, parse, i + 1);
  }

  /** A list of files either all parse or has a first file that does not. */
  lemma FirstUnparsableExists(files: seq<Filename>, parse: Filename -> ParseOutcome)
    requires !AllParse(files, parse)
    ensures exists i :: FirstUnparsable(files, parse, i)
  {
    var f :| f in files && parse(f).Unparsable?;
    var i := FirstIndex(files, f);
    var j := 0;
    while j < i && parse(files[j]).Parsed?
      invariant j <= i
      invariant forall l :: 0 <= l < j ==> parse(files[l]).Parsed?
    {
      j := j + 1;
    }
    assert FirstUnparsable(files, parse, j);
  }

  /** The values `inspect` is given for a key, in terms of the parsed files. */
  lemma ValuesForParsed(files: seq<Filename>, parse: Filename -> ParseOutcome, key: PhraseKey)
    requires AllParse(files, parse)
    ensures ValuesFor(files, Jsons(files, parse), key) == ValuesOf(files, parse, key)
  {
    ParseAllOk(files, parse);
    var jsons := Jsons(files, parse);
    var a := ValuesFor(files, jsons, key);
    var b := ValuesOf(files, parse, key);
    forall i | 0 <= i < |files| ensures a[i] == b[i] {
      assert files[i] in files;
    }
  }

  // ---------------------------------------------------------------------------
  // The errors
  // ---------------------------------------------------------------------------

  /** An unreadable directory is reported first. */
  lemma LintNoEntryDir(baseDir: string, mainEntry: Filename, parse: Filename -> ParseOutcome)
    ensures LintSpec(baseDir, mainEntry, None, parse) == Err(NoEntryDirError(baseDir))
    ensures LintSpec(baseDir, mainEntry, None, parse).error.Code().Value() == 9
  {
  }

  /** Otherwise the first `.json` file that does not parse is reported, whatever the reference. */
  lemma LintParseError(baseDir: string, mainEntry: Filename, entries: seq<DirEntry>, parse: Filename -> ParseOutcome, i: nat)
    requires FirstUnparsable(JsonFiles(entries), parse, i)
    ensures LintSpec(baseDir, mainEntry, Some(entries), parse) == Err(CouldNotParseJsonError(JsonFiles(entries)[i]))
    ensures LintSpec(baseDir, mainEntry, Some(entries), parse).error.Code().Value() == 11
  {
    ParseAllErr(JsonFiles(entries), parse, i);
  }

  /** When everything parses but the reference locale is not among the `.json` files, that is reported. */
  lemma LintNoReference(baseDir: string, mainEntry: Filename, entries: seq<DirEntry>, parse: Filename -> ParseOutcome)
    requires AllParse(JsonFiles(entries), parse)
    requires mainEntry !in JsonFiles(entries)
    ensures LintSpec(baseDir, mainEntry, Some(entries), parse) == Err(NoReferenceLocaleError(mainEntry))
    ensures LintSpec(baseDir, mainEntry, Some(entries), parse).error.Code().Value() == 10
  {
    ParseAllOk(JsonFiles(entries), parse);
  }

  /** The run succeeds exactly when the directory is readable, every `.json` file in it
      parses and the reference locale is one of them. */
  lemma LintSucceeds(baseDir: string, mainEntry: Filename, listing: Option<seq<DirEntry>>, parse: Filename -> ParseOutcome)
    ensures LintSpec(baseDir, mainEntry, listing, parse).Ok? <==>
              listing.Some? && AllParse(JsonFiles(listing.value), parse) && mainEntry in JsonFiles(listing.value)
  {
    if listing.Some? {
      var files := JsonFiles(listing.value);
      if AllParse(files, parse) {
        ParseAllOk(files, parse);
      } else {
        FirstUnparsableExists(files, parse);
        var i :| FirstUnparsable(files, parse, i);
        ParseAllErr(files, parse, i);
      }
    }
  }

  // ---------------------------------------------------------------------------
  // The groups
  // ---------------------------------------------------------------------------

  /** Every issue found for a key is about that key. */
  ghost predicate KeyedBy(found: PhraseKey -> seq<Issue>) {
    forall k: PhraseKey, it: Issue :: it in found(k) ==> it.key == k
  }

  /** The keys for which something is found, in the order of `keys`. The grouping lemmas are
      stated over an arbitrary finder so that they do not unfold `InspectSpec`. */
  function ReportedBy(keys: seq<PhraseKey>, found: PhraseKey -> seq<Issue>): seq<PhraseKey>
  {
    if keys == [] then []
    else
      var k := keys[|keys| - 1];
      ReportedBy(keys[..|keys| - 1], found) + (if found(k) != [] then [k] else [])
  }

  /** What `inspect` finds for a key in the parsed files is `KeyIssues`, and it is keyed by the key. */
  lemma InspectorParsed(files: seq<Filename>, parse: Filename -> ParseOutcome)
    requires AllParse(files, parse)
    ensures forall k :: Inspector(files, Jsons(files, parse))(k) == KeyIssues(files, parse, k)
    ensures KeyedBy(Inspector(files, Jsons(files, parse)))
  {
    forall k ensures Inspector(files, Jsons(files, parse))(k) == KeyIssues(files, parse, k) {
      ValuesForParsed(files, parse, k);
    }
    forall k: PhraseKey, it: Issue | it in Inspector(files, Jsons(files, parse))(k) ensures it.key == k {
      InspectKeys(k, ValuesFor(files, Jsons(files, parse), k));
    }
  }

  lemma {:induction false} ReportedParsed(keys: seq<PhraseKey>, files: seq<Filename>, parse: Filename -> ParseOutcome)
    requires AllParse(files, parse)
    ensures ReportedBy(keys, Inspector(files, Jsons(files, parse))) == Reported(keys, files, parse)
  {
    if keys != [] {
      ReportedParsed(keys[..|keys| - 1], files, parse);
      InspectorParsed(files, parse);
    }
  }

  /** Every issue of the key loop belongs to one of the keys inspected. */
  lemma {:induction false} AllIssuesKeys(keys: seq<PhraseKey>, found: PhraseKey -> seq<Issue>)
    requires KeyedBy(found)
    ensures forall k :: k in KeysOf(AllIssues(keys, found), IssueKey) ==> k in keys
  {
    if keys != [] {
      var p := keys[..|keys| - 1];
      var k := keys[|keys| - 1];
      var more := found(k);
      AllIssuesKeys(p, found);
      KeysOfConcat(AllIssues(p, found), more, IssueKey);
      assert forall i :: 0 <= i < |more| ==> more[i] in more;
      assert keys == p + [k];
    }
  }

  /** Grouped by key, the key loop's issues give each key exactly what was found for it. */
  lemma {:induction false} AllIssuesSelect(keys: seq<PhraseKey>, found: PhraseKey -> seq<Issue>, key: PhraseKey)
    requires KeyedBy(found)
    requires NoDuplicates(keys)
    requires key in keys
    ensures Select(AllIssues(keys, found), IssueKey, key) == found(key)
  {
    var p := keys[..|keys| - 1];
    var k := keys[|keys| - 1];
    var more := found(k);
    var a := AllIssues(p, found);
    assert keys == p + [k];
    SelectConcat(a, more, IssueKey, key);
    assert forall i :: 0 <= i < |more| ==> more[i] in more;
    if key == k {
      // no earlier key is `k`, so none of the earlier issues is about it
      AllIssuesKeys(p, found);
      SelectAbsent(a, IssueKey, key);
      SelectAll(more, IssueKey, key);
    } else {
      AllIssuesSelect(p, found, key);
      SelectAbsent(more, IssueKey, key);
    }
  }

  /** The keys the key loop's issues are about, in order of first appearance, are the keys
      with issues, in key order. */
  lemma {:induction false} AllIssuesOrder(keys: seq<PhraseKey>, found: PhraseKey -> seq<Issue>)
    requires KeyedBy(found)
    requires NoDuplicates(keys)
    ensures Dedup(KeysOf(AllIssues(keys, found), IssueKey)) == ReportedBy(keys, found)
  {
    if keys != [] {
      var p := keys[..|keys| - 1];
      var k := keys[|keys| - 1];
      var more := found(k);
      var a := AllIssues(p, found);
      assert keys == p + [k];
      AllIssuesOrder(p, found);
      AllIssuesKeys(p, found);
      KeysOfConcat(a, more, IssueKey);
      assert forall i :: 0 <= i < |more| ==> more[i] in more;
      DedupAppendConst(KeysOf(a, IssueKey), KeysOf(more, IssueKey), k);
    }
  }

  /** The key loop finds nothing exactly when nothing is found for any key. */
  lemma {:induction false} AllIssuesEmpty(keys: seq<PhraseKey>, found: PhraseKey -> seq<Issue>)
    ensures AllIssues(keys, found) == [] <==> forall k :: k in keys ==> found(k) == []
  {
    if keys != [] {
      var p := keys[..|keys| - 1];
      AllIssuesEmpty(p, found);
      assert keys == p + [keys[|keys| - 1]];
    }
  }

  /** When every `.json` file parses and the reference is one of them, the run groups the
      key loop's issues by key. */
  lemma LintUnfold(baseDir: string, mainEntry: Filename, entries: seq<DirEntry>, parse: Filename -> ParseOutcome)
    requires AllParse(JsonFiles(entries), parse)
    requires mainEntry in JsonFiles(entries)
    ensures var files := JsonFiles(entries);
            LintSpec(baseDir, mainEntry, Some(entries), parse) ==
              Ok(Grouped(AllIssues(Names(parse(mainEntry).json), Inspector(files, Jsons(files, parse))), IssueKey))
  {
    ParseAllOk(JsonFiles(entries), parse);
  }

  /** On success, the groups are the reference keys that have issues, in reference order,
      each holding exactly the issues found for that key. */
  lemma LintGroups(baseDir: string, mainEntry: Filename, entries: seq<DirEntry>, parse: Filename -> ParseOutcome)
    requires AllParse(JsonFiles(entries), parse)
    requires mainEntry in JsonFiles(entries)
    requires NoDuplicates(Names(parse(mainEntry).json))
    ensures var files := JsonFiles(entries);
            var refKeys := Names(parse(mainEntry).json);
            var r := LintSpec(baseDir, mainEntry, Some(entries), parse);
            r.Ok? &&
            r.value.keys == Reported(refKeys, files, parse) &&
            (forall k :: k in r.value.entries <==> k in refKeys && KeyIssues(files, parse, k) != []) &&
            (forall k :: k in r.value.entries ==> r.value.entries[k] == KeyIssues(files, parse, k))
  {
    var files := JsonFiles(entries);
    var refKeys := Names(parse(mainEntry).json);
    LintUnfold(baseDir, mainEntry, entries, parse);
    var found := Inspector(files, Jsons(files, parse));
    var all := AllIssues(refKeys, found);
    InspectorParsed(files, parse);
    AllIssuesOrder(refKeys, found);
    ReportedParsed(refKeys, files, parse);
    var ks := KeysOf(all, IssueKey);
    DedupMembers(ks);
    forall k | k in ks ensures Select(all, IssueKey, k) == KeyIssues(files, parse, k) {
      AllIssuesKeys(refKeys, found);
      AllIssuesSelect(refKeys, found, k);
    }
  }

  /** The file names of a directory's `.json` files are distinct. */
  lemma {:induction false} JsonFilesDistinct(entries: seq<DirEntry>)
    requires DistinctEntries(entries)
    ensures NoDuplicates(JsonFiles(entries))
  {
    if entries != [] {
      var p := entries[..|entries| - 1];
      var e := entries[|entries| - 1];
      assert DistinctEntries(p);
      JsonFilesDistinct(p);
      NoDuplicatesConcat(JsonFiles(p), if IsJsonFile(e) then [e.name] else []);
    }
  }

  /** The `.json` files keep the listing order: they are the entry names with gaps. */
  lemma {:induction false} JsonFilesSubsequence(entries: seq<DirEntry>)
    ensures IsSubsequence(JsonFiles(entries), EntryNames(entries))
  {
    if entries != [] {
      var p := entries[..|entries| - 1];
      var e := entries[|entries| - 1];
      var fs := JsonFiles(p);
      var names := EntryNames(entries);
      JsonFilesSubsequence(p);
      assert names == EntryNames(p) + [e.name];
      assert names[..|names| - 1] == EntryNames(p);
      if IsJsonFile(e) {
        var r := fs + [e.name];
        assert JsonFiles(entries) == r;
        assert r[..|r| - 1] == fs && r[|r| - 1] == names[|names| - 1];
      } else {
        assert JsonFiles(entries) == fs;
        if fs != [] {
          SubsequenceOfPrefixLast(fs, names);
        }
      }
    }
  }

  /** With distinct entry names, each `.json` file comes after the ones listed before it. */
  lemma {:induction false} JsonFilesOrder(entries: seq<DirEntry>)
    requires DistinctEntries(entries)
    ensures FirstOccurrenceOrder(JsonFiles(entries), EntryNames(entries))
  {
    if entries != [] {
      var p := entries[..|entries| - 1];
      var e := entries[|entries| - 1];
      var np := EntryNames(p);
      var names := EntryNames(entries);
      assert DistinctEntries(p);
      JsonFilesOrder(p);
      assert names == np + [e.name];
      assert names[..|np|] == np;
      if IsJsonFile(e) {
        assert e.name !in np by {
          forall i | 0 <= i < |np| ensures np[i] != e.name {
            assert np[i] == entries[i].name;
          }
        }
        OrderExtend(JsonFiles(p), np, e.name);
      } else {
        OrderInPrefix(JsonFiles(p), names, |np|);
      }
    }
  }

  /** Membership and listing order determine the `.json` files: any list of exactly those
      names in listing order is `JsonFiles(entries)`. */
  lemma JsonFilesUnique(entries: seq<DirEntry>, files: seq<Filename>)
    requires DistinctEntries(entries)
    requires forall f :: f in files ==> exists e :: e in entries && IsJsonFile(e) && e.name == f
    requires forall e :: e in entries && IsJsonFile(e) ==> e.name in files
    requires FirstOccurrenceOrder(files, EntryNames(entries))
    ensures files == JsonFiles(entries)
  {
    JsonFilesOrder(entries);
    SameOrderedEqual(files, JsonFiles(entries), EntryNames(entries));
  }

  /** A run over consistent files reports nothing: the result is an empty map exactly when,
      for every reference key, all the files with keys under it have as many. */
  lemma LintClean(baseDir: string, mainEntry: Filename, entries: seq<DirEntry>, parse: Filename -> ParseOutcome)
    requires DistinctEntries(entries)
    requires AllParse(JsonFiles(entries), parse)
    requires mainEntry in JsonFiles(entries)
    ensures var files := JsonFiles(entries);
            LintSpec(baseDir, mainEntry, Some(entries), parse) == Ok(OrderedMap([], map[])) <==>
              forall k :: k in Names(parse(mainEntry).json) ==> AllSameCount(ValuesOf(files, parse, k))
  {
    var files := JsonFiles(entries);
    var refKeys := Names(parse(mainEntry).json);
    LintUnfold(baseDir, mainEntry, entries, parse);
    var found := Inspector(files, Jsons(files, parse));
    var all := AllIssues(refKeys, found);
    JsonFilesDistinct(entries);
    InspectorParsed(files, parse);
    forall k ensures KeyIssues(files, parse, k) == [] <==> AllSameCount(ValuesOf(files, parse, k)) {
      InspectEmpty(k, ValuesOf(files, parse, k));
    }
    AllIssuesEmpty(refKeys, found);
    var g := Grouped(all, IssueKey);
    if all == [] {
      assert g == OrderedMap([], map[]);
    } else {
      assert |KeysOf(all, IssueKey)| > 0;
      assert KeysOf(all, IssueKey)[0] in KeysOf(all, IssueKey);
      DedupMembers(KeysOf(all, IssueKey));
      assert g.keys != [];
    }
  }
}
