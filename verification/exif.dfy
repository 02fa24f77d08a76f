/**
 * The metadata reader: what the EXIF parser returns for a file, and how
 * `readImageExif` turns every failure into an absent record.
 */
module Exif {
  import opened Wrappers
  import opened Storage
  import opened ImageFormat

  /** A tag value as a JavaScript value; only its truthiness matters to the core. */
  datatype TagValue =
    | Text(s: string)
    | Number(x: real)
    | NotANumber
    | Flag(b: bool)
    | Nullish                  // null or undefined, also what a missing tag reads as
    | Structured               // object, array or Date: always truthy

  /** JavaScript truthiness. */
  predicate Truthy(v: TagValue) {
    match v
    case Text(s) => s != []
    case Number(x) => x != 0.0
    case NotANumber => false
    case Flag(b) => b
    case Nullish => false
    case Structured => true
  }

  datatype Tag = Tag(name: string, value: TagValue)

  /** A parsed metadata block: tag names in the parser's order. */
  type Record = seq<Tag>

  /** `record[name]`: the value of the first tag so named, undefined when there is none. */
  function Get(rec: Record, name: string): TagValue
  {
    if rec == [] then Nullish
    else if rec[0].name == name then rec[0].value
    else Get(rec[1..], name)
  }

  /** `Object.keys(record)` */
  function Keys(rec: Record): (ks: seq<string>)
    ensures |ks| == |rec|
    ensures forall i :: 0 <= i < |rec| ==> ks[i] == rec[i].name
  {
    if rec == [] then [] else [rec[0].name] + Keys(rec[1..])
  }

  /** `Object.keys(record).length`, 0 for an absent record. */
  function KeyCount(rec: Option<Record>): nat {
    if rec.Some? then |rec.value| else 0
  }

  /** What the EXIF parser does with a file's bytes. */
  datatype ParseOutcome =
    | Parsed(record: Record)   // an object, possibly with no keys
    | NothingFound             // resolves to undefined
    | ParseError               // throws

  /**
   * `readImageExif(path)`: an unsupported path is refused before the parser is
   * consulted; a missing file, a throwing parser and an undefined result all
   * read as an absent record.
   */
  function ReadImageExif(parse: Bytes -> ParseOutcome, fs: Files, path: string): (r: Option<Record>)
    ensures r.Some? <==> IsSupportedImageFormat(path) && path in fs && parse(fs[path]).Parsed?
    ensures r.Some? ==> r.value == parse(fs[path]).record
  {
    if !IsSupportedImageFormat(path) then None
    else if path !in fs then None
    else match parse(fs[path])
      case Parsed(rec) => Some(rec)
      case NothingFound => None
      case ParseError => None
  }

  /** The format gate comes first: neither the parser nor the file matters. */
  lemma UnsupportedReadsNothing(parse: Bytes -> ParseOutcome, parse': Bytes -> ParseOutcome,
                                fs: Files, fs': Files, path: string)
    requires !IsSupportedImageFormat(path)
    ensures ReadImageExif(parse, fs, path) == ReadImageExif(parse', fs', path) == None
  {
  }
}
