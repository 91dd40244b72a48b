/**
 * JSON values as the collection store sees them: entries handed to
 * `addEntryToIndexes`, document metadata, and the text `JSON.stringify`
 * produces and `JSON.parse` reads back.
 *
 * The serialiser and the parser belong to the JavaScript runtime and are
 * not part of this model: a `JsonCodec` carries them as two functions, and
 * the properties below hold for any codec that round-trips.
 */
module Json {
  import opened Wrappers

  /** A JSON value. Numbers are integers here (see the README). */
  datatype JsonValue =
    | JNull
    | JBool(b: bool)
    | JNumber(n: int)
    | JString(s: string)
    | JArray(items: seq<JsonValue>)
    | JObject(fields: map<string, JsonValue>)

  /** JavaScript truthiness: `null`, `false`, `0` and `''` are falsy, everything else truthy. */
  predicate Truthy(v: JsonValue) {
    match v
    case JNull => false
    case JBool(b) => b
    case JNumber(n) => n != 0
    case JString(s) => s != ""
    case JArray(_) => true
    case JObject(_) => true
  }

  /**
   * `value[name]` for a property that `value` owns: `None` is `undefined`,
   * which every non-object value gives.
   */
  function Property(value: JsonValue, name: string): (r: Option<JsonValue>)
    ensures r.Some? <==> value.JObject? && name in value.fields
    ensures r.Some? ==> r.value == value.fields[name]
  {
    if value.JObject? && name in value.fields then Some(value.fields[name]) else None
  }

  /**
   * Assigning a string to this property of a plain object (`obj[k] = v` on
   * `{}`) is ignored: it names the object's prototype, not an own property.
   */
  const ProtoKey := "__proto__"

  /** `JSON.stringify` and `JSON.parse`, as supplied by the runtime. */
  datatype JsonCodec = JsonCodec(stringify: JsonValue -> string, parse: string -> Option<JsonValue>)

  /** Parsing what was serialised gives back the value. */
  ghost predicate RoundTrips(codec: JsonCodec) {
    forall v :: codec.parse(codec.stringify(v)) == Some(v)
  }

  /** A round-tripping serialiser never gives two values the same text. */
  lemma StringifyInjective(codec: JsonCodec, v: JsonValue, w: JsonValue)
    requires RoundTrips(codec)
    requires codec.stringify(v) == codec.stringify(w)
    ensures v == w
  {
    assert codec.parse(codec.stringify(v)) == Some(v);
    assert codec.parse(codec.stringify(w)) == Some(w);
  }
}
