/** The value `phraselint` (src/phraselint.ts:67-125) computes once the directory has been
    listed and its files read: the error it stops with, or the issues of every reference
    key grouped by key. */
module Linting {
  import opened Seqs
  import opened Utils
  import opened Results
  import opened Phrases
  import opened Inspection

  /** One entry of the directory listing. */
  datatype DirEntry = DirEntry(name: string, isFile: bool)

  /** A parsed locale file: its top-level keys in `Object.keys` order, with their values. */
  type PhraseJson = seq<(PhraseKey, PhraseValue)>

  /** What reading and `JSON.parse` make of one file. */
  datatype ParseOutcome = Parsed(json: PhraseJson) | Unparsable

  predicate EndsWith(s: string, suffix: string) {
    |suffix| <= |s| && s[|s| - |suffix|..] == suffix
  }

  predicate IsJsonFile(e: DirEntry) {
    e.isFile && EndsWith(e.name, ".json")
  }

  /** The names of the regular files ending in `.json`, in listing order. */
  function JsonFiles(entries: seq<DirEntry>): (files: seq<Filename>)
    ensures forall f :: f in files ==> exists e :: e in entries && IsJsonFile(e) && e.name == f
    ensures forall e :: e in entries && IsJsonFile(e) ==> e.name in files
  {
    if entries == [] then []
    else
      var p := entries[..|entries| - 1];
      var e := entries[|entries| - 1];
      assert forall d :: d in p ==> d in entries;
      assert entries == p + [e];
      JsonFiles(p) + (if IsJsonFile(e) then [e.name] else [])
  }

  /** The names of the entries, in listing order (`Utils.KeysOf` with the name
      projection, written out so that lemmas about it need no function value). */
  function EntryNames(entries: seq<DirEntry>): (names: seq<string>)
    ensures |names| == |entries|
    ensures forall i :: 0 <= i < |entries| ==> names[i] == entries[i].name
  {
    if entries == [] then [] else EntryNames(entries[..|entries| - 1]) + [entries[|entries| - 1].name]
  }

  /** The `jsons` map the parse loop builds, or the error of the first file that does not parse. */
  function ParseAll(files: seq<Filename>, parse: Filename -> ParseOutcome): Result<OrderedMap<Filename, PhraseJson>, AppError>
  {
    if files == [] then Ok(OrderedMap([], map[]))
    else
      var file := files[|files| - 1];
      match ParseAll(files[..|files| - 1], parse)
      case Err(e) => Err(e)
      case Ok(jsons) =>
        match parse(file)
        case Unparsable => Err(CouldNotParseJsonError(file))
        case Parsed(json) => Ok(Put(jsons, file, json))
  }

  /** Once a file fails to parse, the loop's outcome is that failure. */
  lemma {:induction false} ParseAllErrPrefix(files: seq<Filename>, parse: Filename -> ParseOutcome, i: nat)
    requires i <= |files|
    requires ParseAll(files[..i], parse).Err?
    ensures ParseAll(files, parse) == ParseAll(files[..i], parse)
  {
    if i < |files| {
      var p := files[..|files| - 1];
      assert p[..i] == files[..i];
      ParseAllErrPrefix(p, parse, i);
    } else {
      assert files[..i] == files;
    }
  }

  /** `json[key] ?? null`. */
  function LookupKey(json: PhraseJson, key: PhraseKey): PhraseValue
  {
    if json == [] then Null
    else if json[0].0 == key then json[0].1
    else LookupKey(json[1..], key)
  }

  /** The `values` of one reference key: every file with its value for the key, `null` when absent. */
  function ValuesFor(files: seq<Filename>, jsons: OrderedMap<Filename, PhraseJson>, key: PhraseKey): (values: seq<ValuePair>)
    ensures |values| == |files|
    ensures forall i :: 0 <= i < |files| ==> values[i].0 == files[i]
    ensures forall i :: 0 <= i < |files| ==>
              values[i].1 == if files[i] in jsons.entries then LookupKey(jsons.entries[files[i]], key) else Null
  {
    if files == [] then []
    else
      var file := files[|files| - 1];
      ValuesFor(files[..|files| - 1], jsons, key) +
        [(file, if file in jsons.entries then LookupKey(jsons.entries[file], key) else Null)]
  }

  /** The issues `inspect` finds for a key, given the parsed files. */
  function Inspector(files: seq<Filename>, jsons: OrderedMap<Filename, PhraseJson>): PhraseKey -> seq<Issue>
  {
    key => InspectSpec(key, ValuesFor(files, jsons, key))
  }

  /** The `issues` list: the issues `found` for each key, key after key. */
  function AllIssues(keys: seq<PhraseKey>, found: PhraseKey -> seq<Issue>): seq<Issue>
  {
    if keys == [] then []
    else AllIssues(keys[..|keys| - 1], found) + found(keys[|keys| - 1])
  }

  /** One more key inspected. */
  lemma AllIssuesSnoc(keys: seq<PhraseKey>, found: PhraseKey -> seq<Issue>, key: PhraseKey)
    ensures AllIssues(keys + [key], found) == AllIssues(keys, found) + found(key)
  {
    assert (keys + [key])[..|keys|] == keys;
  }

  function IssueKey(it: Issue): PhraseKey {
    it.key
  }

  /** The value of `phraselint`: `listing` is the directory listing (`None` when the
      directory cannot be read), `parse` what reading and parsing each file gives. */
  function LintSpec(baseDir: string, mainEntry: Filename, listing: Option<seq<DirEntry>>, parse: Filename -> ParseOutcome)
    : Result<OrderedMap<PhraseKey, seq<Issue>>, AppError>
  {
    match listing
    case None => Err(NoEntryDirError(baseDir))
    case Some(entries) =>
      var files := JsonFiles(entries);
      match ParseAll(files, parse)
      case Err(e) => Err(e)
      case Ok(jsons) =>
        if mainEntry !in jsons.entries then Err(NoReferenceLocaleError(mainEntry))
        else Ok(Grouped(AllIssues(Names(jsons.entries[mainEntry]), Inspector(files, jsons)), IssueKey))
  }
}
