# phraselint in Dafny

phraselint checks a directory of locale files (`en.json`, `sv.json`, ...) against a
reference locale. For every top-level phrase key of the reference it looks up the key's
value in every `.json` file of the directory. It then finds the files whose value is a
non-array object with at least one key, but fewer keys than the most any such value has.
Each of these files is reported as a `MissingProp` issue (code 1011). The issue lists
the keys the file lacks of the first file, in file order, that has the most keys. The
reference locale itself may be among the files reported. Values that are `null`,
arrays, empty objects or scalars are never reported. The issues come back grouped by
phrase key. Three errors can stop a run instead:

- the entry directory cannot be read (code 9);
- the reference locale is not among the files (code 10);
- a file cannot be parsed (code 11).

The model has three layers:

- **Data model.** `Phrases` holds the values, issues and errors; `Results` holds the
  `Result` pair.
- **Specification functions.** `Utils` describes `difference` and `groupBy`.
  `Inspection` describes what `inspectMissingProp` computes. `Linting` describes what
  `phraselint` computes.
- **Imperative code and proofs.**
  - `Utils.Difference`, `Utils.GroupBy` and the methods of `Phraselint` are the source's
    operations as it writes them: loops where it loops, and `Phraselint.Inspect`, which
    has no loop, as a plain call. Each is proved to compute its specification function.
  - `InspectionProperties` proves what `inspectMissingProp` promises. Its headline
    lemmas (`InspectShape` and the `Inspect...` lemmas) are stated against reference
    definitions that never mention buckets or sorting: `Lagging` (the files that should
    be reported), `RefKeys` (the reference keys) and `Ranked` (the reporting order). The
    bucket lemmas (`BucketsCounts`, `BucketMembers`, `BucketOrder`, `BucketsMax`,
    `Representative`, `LaggingNeedsTwoCounts`, `LaggingTrouble`, `TroubleRanked`,
    `TroubleDistinct`) are stated about `Buckets`, `SortDesc` and `TroubleFiles`. They
    are the steps towards the headline lemmas.
  - `LintingProperties` proves what `phraselint` promises. It states the error cases, and
    on success the result map's keys and entries, in terms of `KeyIssues`: the issues
    one key's inspection finds, which `InspectionProperties` characterises.
  - `InspectionScenarios` replays the two unit tests of `inspect`.

A JavaScript `Map` is an `OrderedMap`: its insertion order plus its contents. `Put` is
`Map.set`, where an existing key keeps its place. `Seqs` holds the list facts the
proofs share.

## Model

| member | source | states |
|---|---|---|
| Utils.Difference | src/utils.ts:16-24 | the loop yields `difference(a, b)`: exactly the elements of `a` not in `b`, each once, in the order of their first occurrence in `a` |
| Utils.DifferenceMembers | src/utils.ts:16-24 | an element is in `difference(a, b)` if and only if it is in `a` and not in `b` |
| Utils.DifferenceNoDuplicates | src/utils.ts:17 | the result lists no element twice, even when `a` repeats elements (it is built from a `Set`) |
| Utils.DifferenceOrder | src/utils.ts:17-23 | the result keeps the first-occurrence order of `a` (`Set` iteration order) |
| Utils.DifferenceUnique | src/utils.ts:16-24 | any list with those three properties equals `difference(a, b)`, so they characterise it |
| Utils.DifferenceOfNothing | src/utils.ts:16-24 | `difference(a, [])` is `a` with repeats removed |
| Utils.DifferenceOfSelf | src/utils.ts:16-24 | `difference(a, a)` is empty |
| Utils.DifferenceLength | src/utils.ts:16-24 | for `a` without repeats, at most `\|b\|` elements are removed |
| Utils.GroupBy | src/utils.ts:1-14 | the loop yields `Grouped(items, getKey)`: one group per distinct key, in order of first appearance, each the items with that key in item order |
| Utils.GroupedKeys | src/utils.ts:4-11 | the group keys are exactly the keys of the items, each once, in order of first appearance |
| Utils.GroupedPartition | src/utils.ts:4-11 | every item is in the group of its own key; each group holds, with multiplicities, exactly the items with that key |
| Utils.GroupedOrder | src/utils.ts:10 | within a group, items keep their original relative order |
| Utils.GroupedNonEmpty | src/utils.ts:6-10 | no group is empty |
| Utils.GroupedSizes | src/utils.ts:4-11 | the group sizes add up to the number of items |
| Utils.SelectMembers | src/utils.ts:4-11 | the items gathered for a key are exactly the items with that key |
| Utils.SelectMultiset | src/utils.ts:4-11 | the items gathered for a key are, with multiplicities, those with that key |
| Utils.PutWellFormed | src/utils.ts:8 | `Map.set` keeps a map well formed (each key once, keys match the contents) and sets the key's value |
| Inspection.Buckets | src/phraselint.ts:149-155 | `byCount` lists each key count once, each with a non-empty list of files, and has no other entries |
| Inspection.BucketsStep | src/phraselint.ts:151-155 | one more `(file, count)` pair updates `byCount` by `Map.set` of the count's list extended by the file |
| Inspection.SortDesc | src/phraselint.ts:162 | the sort of the bucket counts is descending and a permutation (same multiset, same members, no repeats added) |
| Inspection.InsertDescending | src/phraselint.ts:162 | inserting into a descending list keeps it descending |
| Inspection.InsertDistinct | src/phraselint.ts:162 | inserting a new element into a list without repeats keeps it without repeats |
| Inspection.IssuesFor | src/phraselint.ts:174-189 | one issue per listed file, in file order, each the `MissingProp` issue of that file |
| Inspection.IssuesForConcat | src/phraselint.ts:174-189 | reporting two runs of files one after the other gives the two runs' issues concatenated |
| Phraselint.InspectMissingProp | src/phraselint.ts:135-192 | the method yields `InspectSpec(key, values)`: the bucket loop, the early exit with fewer than two buckets, the sort, the reference lookup and the issue loop |
| Phraselint.ReportMissing | src/phraselint.ts:172-191 | the outer issue loop reports the files of the trouble buckets, bucket after bucket |
| Phraselint.ReportBucket | src/phraselint.ts:175-188 | the inner issue loop reports each file of one bucket with `difference(refKeys, actualKeys)` |
| Phraselint.Inspect | src/phraselint.ts:127-133 | `inspect` returns exactly the issues of `inspectMissingProp` |
| InspectionProperties.MaxCount | src/phraselint.ts:136-147 | an upper bound of the key counts of the qualifying values, attained by one of them when positive |
| InspectionProperties.FirstWith | src/phraselint.ts:164-165 | the first qualifying value with a given number of keys, and no earlier one |
| InspectionProperties.FindFirst | src/phraselint.ts:166-169 | `values.find` by file name yields the value of the first pair listed for that file |
| InspectionProperties.FindAbsent | src/phraselint.ts:166-169 | a file that is listed nowhere is found with no value (`Null`) |
| InspectionProperties.FindDistinct | src/phraselint.ts:176 | with distinct names, `find` for the file of pair `i` yields that pair's value |
| InspectionProperties.PropsCountIndexed | src/phraselint.ts:136-147 | `propsCount` holds exactly the values that are non-null, non-array objects with at least one key, with their key counts; with distinct names, in input order |
| InspectionProperties.PropsCountSound | src/phraselint.ts:136-147 | each `propsCount` entry is a qualifying value's file with that value's number of keys |
| InspectionProperties.PropsCountComplete | src/phraselint.ts:136-147 | each qualifying value is in `propsCount` with its number of keys |
| InspectionProperties.PropsCountOrder | src/phraselint.ts:136-147 | with distinct names, `propsCount` keeps the files in input order |
| InspectionProperties.PropsCountFiles | src/phraselint.ts:136-147 | by file name: an entry is a qualifying file with its key count, and every qualifying file has its entry |
| InspectionProperties.BucketsCounts | src/phraselint.ts:149-155 | the bucket counts are exactly the counts listed in `propsCount` |
| InspectionProperties.BucketMembers | src/phraselint.ts:149-155 | a file is in the bucket of count `c` if and only if `propsCount` lists it with `c` keys |
| InspectionProperties.BucketOrder | src/phraselint.ts:151-154 | each bucket lists its files once each, in input order |
| InspectionProperties.BucketsMax | src/phraselint.ts:162 | the largest bucket count is the most keys any qualifying file has |
| InspectionProperties.Representative | src/phraselint.ts:164-170 | the reference keys are those of the first file, in input order, with the most keys |
| InspectionProperties.LaggingNeedsTwoCounts | src/phraselint.ts:157-159 | a file with fewer keys than the most implies at least two buckets, so the early exit loses nothing |
| InspectionProperties.LaggingTrouble | src/phraselint.ts:162-175 | the files of the trouble buckets are exactly the qualifying files with fewer keys than the most |
| InspectionProperties.TroubleRanked | src/phraselint.ts:162-175 | buckets visited by strictly descending count, each in input order, give the files by descending key count, then in input order |
| InspectionProperties.TroubleDistinct | src/phraselint.ts:174-175 | distinct buckets, none with repeats, give no file twice |
| InspectionProperties.InspectShape | src/phraselint.ts:135-192 | the issues are, against the reference keys, those of a list holding exactly the lagging files, each once, in reporting order |
| InspectionProperties.InspectKeys | src/phraselint.ts:180-187 | every issue carries the phrase key it was found for, whatever the values |
| InspectionProperties.InspectReportsLagging | src/phraselint.ts:174-189 | every issue is about a lagging file and has code 1011; its props are `difference(refKeys, keys of the file)` |
| InspectionProperties.InspectCoversLagging | src/phraselint.ts:162-189 | every lagging file is reported |
| InspectionProperties.InspectReportsOnce | src/phraselint.ts:174-189 | no file is reported twice |
| InspectionProperties.InspectOrder | src/phraselint.ts:162 | files with more keys are reported first; files with as many keys come in input order |
| InspectionProperties.InspectSkips | src/phraselint.ts:138-143 | null, non-object, array and empty-object values are never reported, and neither are files with the most keys |
| InspectionProperties.InspectEmpty | src/phraselint.ts:157-159 | nothing is reported if and only if every qualifying value has the same number of keys |
| InspectionProperties.InspectPropsCount | src/phraselint.ts:170-178 | each issue lists at least as many props as the file lacks keys, so never none |
| InspectionScenarios.OneMissing | tests/missingProp.test.ts:6-29 | with en and sv having keys one and two and fi only one, the sole issue is fi.json missing `two` |
| InspectionScenarios.TwoMissing | tests/missingProp.test.ts:30-64 | with three, two and one keys, sv.json misses `three`, then fi.json misses `two` and `three` |
| Linting.JsonFiles | src/phraselint.ts:81-83 | the files kept are exactly the names of the regular entries ending in `.json` |
| LintingProperties.JsonFilesSubsequence | src/phraselint.ts:81-83 | the `.json` files keep the listing order: they are the entry names with gaps |
| LintingProperties.JsonFilesOrder | src/phraselint.ts:81-83 | with distinct entry names, the `.json` files come in the order of the listing |
| LintingProperties.JsonFilesUnique | src/phraselint.ts:81-83 | with distinct entry names, any list of exactly the `.json` names in listing order is the `files` list, so membership and order determine it |
| Linting.ParseAllErrPrefix | src/phraselint.ts:86-98 | once a file fails to parse, the loop's outcome is that failure |
| Linting.ValuesFor | src/phraselint.ts:113-117 | one pair per file, in file order, with the file's value for the key, or `null` when the key or the file is missing |
| Phraselint.Lint | src/phraselint.ts:67-125 | the method yields `LintSpec`: the directory error, the parse loop with its early error, the reference check, the key loop and the grouping |
| Phraselint.InspectAll | src/phraselint.ts:110-120 | the key loop collects the issues of every reference key, key after key |
| LintingProperties.LookupKeyFound | src/phraselint.ts:115 | `json[key] ?? null` is the value of the key's entry, or `null` when there is none |
| LintingProperties.ParseAllOk | src/phraselint.ts:85-98 | when every file parses, `jsons` holds each file once, in file order, with its parse |
| LintingProperties.ParseAllErr | src/phraselint.ts:86-97 | the first file that does not parse is the `CouldNotParseJson` error |
| LintingProperties.FirstUnparsableExists | src/phraselint.ts:86-97 | when not every file parses, there is a first file that does not |
| LintingProperties.ValuesForParsed | src/phraselint.ts:113-117 | the values given to `inspect` are each file with its parsed value for the key |
| LintingProperties.LintNoEntryDir | src/phraselint.ts:70-79 | an unreadable directory gives `NoEntryDirError` for the directory, code 9 |
| LintingProperties.LintParseError | src/phraselint.ts:86-97 | otherwise the first `.json` file that does not parse gives `CouldNotParseJsonError` for it, code 11, whatever the reference |
| LintingProperties.LintNoReference | src/phraselint.ts:100-108 | when all files parse but the reference file is not among them, the result is `NoReferenceLocaleError`, code 10 |
| LintingProperties.LintSucceeds | src/phraselint.ts:67-125 | a run succeeds if and only if the directory is readable, every `.json` file parses and the reference is one of them |
| LintingProperties.InspectorParsed | src/phraselint.ts:112-120 | what the key loop finds for a key is `inspect` on the parsed values, and every issue carries that key |
| LintingProperties.AllIssuesSelect | src/phraselint.ts:110-122 | grouped by key, the collected issues give each reference key exactly the issues found for it |
| LintingProperties.AllIssuesOrder | src/phraselint.ts:110-122 | the keys of the collected issues, in order of first appearance, are the keys with issues, in reference order |
| LintingProperties.AllIssuesEmpty | src/phraselint.ts:110-120 | the key loop collects nothing if and only if nothing is found for any key |
| LintingProperties.LintGroups | src/phraselint.ts:110-124 | on success the groups are the reference keys that have issues, in reference order, each holding exactly that key's issues |
| LintingProperties.JsonFilesDistinct | src/phraselint.ts:81-83 | the `.json` files of a directory have distinct names |
| LintingProperties.LintClean | src/phraselint.ts:110-124 | on success the result is the empty map if and only if, for every reference key, all files whose value is a non-empty object have the same number of keys |

## Left out

- Reading the directory and the files: `path.resolve`, `fs.readdir` and `fs.readFile` are not modelled. `baseDir` is the resolved directory. `listing` is the directory listing, with `None` when it cannot be read. `parse` says what reading and `JSON.parse` make of each file. A `readFile` that throws (an unreadable file) is not modelled: that exception escapes `phraselint` instead of becoming an `AppError`.
- `async` and `await` are left out: the model runs the steps in order, as the source awaits each one.
- src/main.ts is not part of this model; it is the command-line wrapper.
- JSON content is abstract. A parsed file is a list of top-level keys with values. A value is `null`, an array, an object with its keys in `Object.keys` order, or some other scalar. String, number and boolean values are alike to the core. The ordering `Object.keys` gives integer-like keys is taken to be already applied.
- A top-level JSON value that is not an object is not modelled. The same goes for the `!mainEntryJson` check on a falsy parse such as `0`, `""`, `false` or `null`. In the model every parsed file is an object, so only a missing reference file gives `NoReferenceLocaleError`.
- InspectionProperties.InspectShape, InspectReportsLagging, InspectCoversLagging, InspectReportsOnce, InspectOrder, InspectSkips and InspectEmpty assume distinct file names (`DistinctFiles`). With repeated names, the `Map` built for `propsCount` keeps one entry per name; `Inspection.PropsCount` keeps every pair. A `phraselint` run always has distinct names, since they come from one directory listing (`LintingProperties.JsonFilesDistinct`).
- InspectionProperties.InspectPropsCount also assumes object keys are listed once each (`WellShaped`), as `Object.keys` guarantees.
- LintingProperties.LintGroups assumes the reference keys are distinct, as `Object.keys` guarantees. `LintClean` uses `DistinctEntries` for the same reason as `DistinctFiles` above.
- Inspection.SortDesc sorts the bucket counts, not the `[count, files]` entries with a comparator. The two agree because the counts are distinct keys of `byCount`.
- Phraselint.ReportMissing and Phraselint.InspectAll cover the source's nested issue loop and its key loop. They are separate methods so that each loop is proved on its own; the statements are the source's.
