/**
 * KeyworkDocumentMetadata, the record every index key of a collection
 * stores: serialised as the key's value and attached as the key's metadata.
 * KeyworkDocumentMetadata.ts is not part of this model; the fields are the
 * ones KeyworkCollection.ts reads.
 */
module DocumentMetadata {
  import opened Wrappers
  import opened Json

  datatype Metadata = Metadata(
    id: string,
    relativeDocPath: string,
    absoluteDocPath: string,
    deserializeAs: string,
    expiration: Option<int>,
    expirationTtl: Option<int>)

  /** A property that `JSON.stringify` writes only when it is defined. */
  function WithOptional(fields: map<string, JsonValue>, name: string, value: Option<int>): (r: map<string, JsonValue>)
    ensures value.Some? ==> r == fields[name := JNumber(value.value)]
    ensures value.None? ==> r == fields
  {
    if value.Some? then fields[name := JNumber(value.value)] else fields
  }

  /** The metadata as the JSON object `JSON.stringify(metadata)` serialises. */
  function ToJson(md: Metadata): (j: JsonValue)
    ensures j.JObject?
    ensures "id" in j.fields && j.fields["id"] == JString(md.id)
    ensures "absoluteDocPath" in j.fields && j.fields["absoluteDocPath"] == JString(md.absoluteDocPath)
  {
    var required := map[
      "id" := JString(md.id),
      "relativeDocPath" := JString(md.relativeDocPath),
      "absoluteDocPath" := JString(md.absoluteDocPath),
      "deserializeAs" := JString(md.deserializeAs)];
    JObject(WithOptional(WithOptional(required, "expiration", md.expiration), "expirationTtl", md.expirationTtl))
  }

  /** A string property of a JSON object. */
  function StringField(fields: map<string, JsonValue>, name: string): (r: Option<string>)
    ensures r.Some? <==> name in fields && fields[name].JString?
  {
    if name in fields && fields[name].JString? then Some(fields[name].s) else None
  }

  /** An optional number property: absent is `undefined`; present it must be a number. */
  function NumberField(fields: map<string, JsonValue>, name: string): (r: Option<Option<int>>)
    ensures r.None? <==> name in fields && !fields[name].JNumber?
  {
    if name !in fields then Some(None)
    else if fields[name].JNumber? then Some(Some(fields[name].n))
    else None
  }

  /** Reads metadata back from a JSON value; `None` when it does not have the record's shape. */
  function FromJson(j: JsonValue): (r: Option<Metadata>)
  {
    if !j.JObject? then None
    else
      var id := StringField(j.fields, "id");
      var relativeDocPath := StringField(j.fields, "relativeDocPath");
      var absoluteDocPath := StringField(j.fields, "absoluteDocPath");
      var deserializeAs := StringField(j.fields, "deserializeAs");
      var expiration := NumberField(j.fields, "expiration");
      var expirationTtl := NumberField(j.fields, "expirationTtl");
      if id.None? || relativeDocPath.None? || absoluteDocPath.None? || deserializeAs.None?
        || expiration.None? || expirationTtl.None?
      then None
      else Some(Metadata(id.value, relativeDocPath.value, absoluteDocPath.value, deserializeAs.value,
                         expiration.value, expirationTtl.value))
  }

  /** Reading back what was serialised gives the metadata: no two records share a JSON form. */
  lemma FromToJson(md: Metadata)
    ensures FromJson(ToJson(md)) == Some(md)
  {
    var fields := ToJson(md).fields;
    assert fields["relativeDocPath"] == JString(md.relativeDocPath);
    assert fields["deserializeAs"] == JString(md.deserializeAs);
    assert NumberField(fields, "expiration") == Some(md.expiration);
    assert NumberField(fields, "expirationTtl") == Some(md.expirationTtl);
  }

  /** Consequence of the round trip: the JSON form identifies the record. */
  lemma ToJsonInjective(a: Metadata, b: Metadata)
    requires ToJson(a) == ToJson(b)
    ensures a == b
  {
    FromToJson(a);
    FromToJson(b);
  }
}
