/**
 * JSON documents as the body filter sees them, and the codec boundary.
 * Parsing and printing belong to Ruby's JSON library, which is not part
 * of this model: the serializer receives them as a `Codec` value, and
 * properties that depend on them say what they assume of the codec.
 * Numbers are integers in this model.
 */
module Json {
  import opened Wrappers
  import opened RubyHash
  import opened Filters

  datatype Json =
    | Null
    | Bool(b: bool)
    | Num(n: int)
    | Str(s: string)
    | Arr(items: seq<Json>)
    | Obj(members: Hash<string, Json>)

  /** `JSON.parse` (None on a parser error) and `to_json`. */
  datatype Codec = Codec(parse: string -> Option<Json>, serialize: Json -> string)

  /** The codec reproduces `text` exactly when it parses and prints it again. */
  ghost predicate ReprintsExactly(codec: Codec, text: string) {
    codec.parse(text).Some? && codec.serialize(codec.parse(text).value) == text
  }

  /**
   * The filter applied to a parsed body: a top-level object loses its
   * rejected members; any other document is left as it is.
   */
  function FilterJson(f: Filter, j: Json): (r: Json)
    ensures j.Obj? <==> r.Obj?
    ensures !j.Obj? ==> r == j
  {
    match j
    case Obj(members) => Obj(Apply(f, members))
    case _ => j
  }

  /** Under `Filter.for` with no arguments the body filter changes nothing. */
  lemma EmptyFilterKeepsJson(j: Json)
    ensures FilterJson(For([]), j) == j
  {
    if j.Obj? {
      EmptyFilterIsIdentity(j.members);
    }
  }

  /** After filtering, a rejected key cannot be looked up; every other key keeps its value. */
  lemma FilteredObjectLookup(f: Filter, members: Hash<string, Json>, k: string)
    ensures Lookup(FilterJson(f, Obj(members)).members, k) == if k in f.reject then None else Lookup(members, k)
  {
    ApplyLookup(f, members, k);
  }
}
