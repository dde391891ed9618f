/** JSON documents, and JSON text up to the parts that carry no meaning. */
module JsonText {
  import opened Wrappers

  datatype Json =
    | Null
    | Bool(b: bool)
    | Number(n: real)
    | Str(s: string)
    | Arr(items: seq<Json>)
    | Obj(fields: map<string, Json>)

  /** Raw text: empty or white space only, unparsable, or a document together with everything about
      its spelling that parsing forgets (white space, key order, escapes). */
  datatype RawJson =
    | Blank
    | Malformed(text: string)
    | Document(value: Json, spelling: string)

  const CANONICAL := ""

  /** Parse and print again: the document in the one spelling the encoder produces. */
  function NormalizeJSON(raw: RawJson): Option<RawJson> {
    match raw
    case Document(value, _) => Some(Document(value, CANONICAL))
    case _ => None
  }

  /** A SHA-256 sum of canonical text. As a free constructor it is injective. */
  datatype Digest = Sha256(canonical: RawJson)
}
