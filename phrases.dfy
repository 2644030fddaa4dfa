/** The data of src/phraselint.ts: locale values, issues and application errors. */
module Phrases {
  type Filename = string
  type PhraseKey = string

  /** A value as `inspectMissingProp` sees it: only whether it is `null`, an array, an
      object (and then its own keys, in `Object.keys` order) or anything else matters. */
  datatype PhraseValue =
    | Null
    | Scalar
    | Array
    | Object(keys: seq<string>)

  /** `[file, value]`: the value a locale file holds for one phrase key. */
  type ValuePair = (Filename, PhraseValue)

  /** `IssueCode`: the numeric code an issue is reported with. */
  datatype IssueCode = MissingProp {
    function Value(): nat {
      1011
    }
  }

  /** `IssueMissingProp`: the properties of the reference value the file's value lacks. */
  datatype IssueDesc = IssueMissingProp(code: IssueCode, props: seq<string>)

  datatype Issue = Issue(file: Filename, key: PhraseKey, issue: IssueDesc)

  /** `ErrorKind`: numbered from 9 on, in this order. */
  datatype ErrorKind = NoEntryDir | NoReferenceLocale | CouldNotParseJson {
    function Value(): nat {
      match this
      case NoEntryDir => 9
      case NoReferenceLocale => 10
      case CouldNotParseJson => 11
    }
  }

  /** `AppError`: each error carries its kind, a fixed message and the directory or file concerned. */
  datatype AppError =
    | NoEntryDirError(dir: string)
    | NoReferenceLocaleError(file: Filename)
    | CouldNotParseJsonError(file: Filename)
  {
    function Code(): ErrorKind {
      match this
      case NoEntryDirError(_) => NoEntryDir
      case NoReferenceLocaleError(_) => NoReferenceLocale
      case CouldNotParseJsonError(_) => CouldNotParseJson
    }

    function Message(): string {
      match this
      case NoEntryDirError(_) => "Entry directory does not exist"
      case NoReferenceLocaleError(_) => "Reference locale file does not exist"
      case CouldNotParseJsonError(_) => "Could not parse JSON file"
    }
  }
}
