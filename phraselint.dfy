/** The operations of src/phraselint.ts as the loops they are: `inspectMissingProp`,
    `inspect` and `phraselint`, each proved to compute the value the `Inspection` and
    `Linting` functions describe. */
module Phraselint {
  import opened Utils
  import opened Results
  import opened Phrases
  import opened Inspection
  import opened Linting

  /** `inspectMissingProp`: bucket the qualifying files by their number of keys, take the
      first file of the largest bucket as the reference and report, for every file of the
      other buckets, the reference keys it lacks. */
  method InspectMissingProp(key: PhraseKey, values: seq<ValuePair>) returns (issues: seq<Issue>)
    ensures issues == InspectSpec(key, values)
  {
    var propsCount := PropsCount(values);

    var byCount: OrderedMap<nat, seq<Filename>> := OrderedMap([], map[]);
    assert propsCount[..0] == [];
    assert byCount == Buckets(propsCount[..0]);
    for i := 0 to |propsCount|
      invariant byCount == Buckets(propsCount[..i])
    {
      var (file, count) := propsCount[i];
      BucketsStep(propsCount, i);
      var files := if count in byCount.entries then byCount.entries[count] else [];
      files := files + [file];
      byCount := Put(byCount, count, files);
    }
    assert propsCount[..|propsCount|] == propsCount;

    if |byCount.keys| <= 1 {
      return [];
    }

    InspectUnfold(key, values);
    var order := SortDesc(byCount.keys);
    var refFiles := byCount.entries[order[0]];
    var refFile := refFiles[0];
    var refKeys := ObjectKeys(Find(values, refFile));
    var troubleGroup := order[1..];

    issues := ReportMissing(key, values, refKeys, byCount, troubleGroup);
  }

  /** The issue loop of `inspectMissingProp`: for every file of every trouble bucket, in
      bucket order, the reference keys the file's value lacks. */
  method ReportMissing(key: PhraseKey, values: seq<ValuePair>, refKeys: seq<string>,
                       byCount: OrderedMap<nat, seq<Filename>>, troubleGroup: seq<nat>)
    returns (issues: seq<Issue>)
    requires forall c :: c in troubleGroup ==> c in byCount.entries
    ensures issues == IssuesFor(key, values, refKeys, TroubleFiles(byCount, troubleGroup))
  {
    issues := [];
    assert troubleGroup[..0] == [];
    for g := 0 to |troubleGroup|
      invariant issues == IssuesFor(key, values, refKeys, TroubleFiles(byCount, troubleGroup[..g]))
    {
      TroubleFilesStep(byCount, troubleGroup, g);
      var files := byCount.entries[troubleGroup[g]];
      var bucketIssues := ReportBucket(key, values, refKeys, files);
      IssuesForConcat(key, values, refKeys, TroubleFiles(byCount, troubleGroup[..g]), files);
      issues := issues + bucketIssues;
    }
    assert troubleGroup[..|troubleGroup|] == troubleGroup;
  }

  /** The inner loop of the issue reporting: one issue per file of a lagging bucket, whose
      props are the reference keys the file lacks. */
  method ReportBucket(key: PhraseKey, values: seq<ValuePair>, refKeys: seq<string>, files: seq<Filename>)
    returns (issues: seq<Issue>)
    ensures issues == IssuesFor(key, values, refKeys, files)
  {
    issues := [];
    assert files[..0] == [];
    for j := 0 to |files|
      invariant issues == IssuesFor(key, values, refKeys, files[..j])
    {
      var file := files[j];
      var actualKeys := ObjectKeys(Find(values, file));
      var diff := Difference(refKeys, actualKeys);
      assert files[..j + 1] == files[..j] + [file];
      IssuesForSnoc(key, values, refKeys, files[..j], file);
      issues := issues + [Issue(file, key, IssueMissingProp(MissingProp, diff))];
    }
    assert files[..|files|] == files;
  }

  /** `inspect`: the issues of every inspection, of which there is one. */
  method Inspect(key: PhraseKey, values: seq<ValuePair>) returns (issues: seq<Issue>)
    ensures issues == InspectSpec(key, values)
  {
    issues := [];
    var missing := InspectMissingProp(key, values);
    issues := issues + missing;
  }

  /** `phraselint`: list the directory, parse every `.json` file, inspect every key of the
      reference locale across all files and group the issues by key. */
  method Lint(baseDir: string, mainEntry: Filename, listing: Option<seq<DirEntry>>, parse: Filename -> ParseOutcome)
    returns (r: Result<OrderedMap<PhraseKey, seq<Issue>>, AppError>)
    ensures r == LintSpec(baseDir, mainEntry, listing, parse)
  {
    if listing.None? {
      return Err(NoEntryDirError(baseDir));
    }
    var files := JsonFiles(listing.value);

    var jsons: OrderedMap<Filename, PhraseJson> := OrderedMap([], map[]);
    assert files[..0] == [];
    for i := 0 to |files|
      invariant ParseAll(files[..i], parse) == Ok(jsons)
    {
      var file := files[i];
      assert files[..i + 1][..i] == files[..i];
      match parse(file)
      case Unparsable =>
        ParseAllErrPrefix(files, parse, i + 1);
        return Err(CouldNotParseJsonError(file));
      case Parsed(json) =>
        jsons := Put(jsons, file, json);
    }
    assert files[..|files|] == files;

    if mainEntry !in jsons.entries {
      return Err(NoReferenceLocaleError(mainEntry));
    }
    var mainEntryJson := jsons.entries[mainEntry];
    var keys := Names(mainEntryJson);

    var issues := InspectAll(keys, files, jsons);

    var groups := GroupBy(issues, IssueKey);
    return Ok(groups);
  }

  /** The key loop of `phraselint`: `inspect` every reference key across all files, in
      key order, and collect what it finds. */
  method InspectAll(keys: seq<PhraseKey>, files: seq<Filename>, jsons: OrderedMap<Filename, PhraseJson>)
    returns (issues: seq<Issue>)
    ensures issues == AllIssues(keys, Inspector(files, jsons))
  {
    issues := [];
    assert keys[..0] == [];
    for k := 0 to |keys|
      invariant issues == AllIssues(keys[..k], Inspector(files, jsons))
    {
      var key := keys[k];
      var values := ValuesFor(files, jsons, key);
      var found := Inspect(key, values);
      assert found == Inspector(files, jsons)(key);
      assert keys[..k + 1] == keys[..k] + [key];
      AllIssuesSnoc(keys[..k], Inspector(files, jsons), key);
      issues := issues + found;
    }
    assert keys[..|keys|] == keys;
  }
}
