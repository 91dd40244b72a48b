/**
 * KeyworkCollection (KeyworkCollection.ts): a collection of documents kept
 * in a key-value namespace, with two mandatory indexes per document (by id
 * and by document path) and one secondary index per registered field.
 *
 * Every key lives under `collectionPath`, in one of five namespaces fixed
 * at construction. `initialize` reads the registered fields off the keys
 * of the index-prefix namespace; `addEntryToIndexes` writes the index keys
 * of one document; the `fetch` operations list and read them back.
 */
module Collection {
  import opened Wrappers
  import opened Json
  import opened DocumentMetadata
  import opened KVStore
  import opened KeyPaths

  /** What the collection's operations throw. */
  datatype CollectionError =
    | ResourceError(message: string, status: int)  // KeyworkResourceError
    | TypeError(message: string)                   // a TypeError raised by the runtime
    | SyntaxError                                  // JSON.parse rejecting a stored value
    | PlainError(message: string)                  // new Error(message)

  /** A KeyworkDocumentReference: the document's absolute path and the collection it belongs to. */
  datatype DocumentReference = DocumentReference(absoluteDocPath: string, collection: KeyworkCollection)

  /** `fetchDocumentsList`'s result: the listing with each key replaced by its relative document path. */
  datatype DocumentsList = DocumentsList(keys: seq<Option<string>>, listComplete: bool, cursor: Option<string>)

  /** `fetchDocuments`'s result: the listing, plus one reference per key. */
  datatype DocumentsResponse = DocumentsResponse(
    keys: seq<ListKey>,
    listComplete: bool,
    cursor: Option<string>,
    documents: seq<DocumentReference>)

  function MandatoryIndexesMessage(absoluteDocPath: string): string {
    "An error occured while creating indexes for `" + absoluteDocPath + "`"
  }

  function FieldIndexMessage(propertyName: string, absoluteDocPath: string): string {
    "An error occured while creating the `" + propertyName + "` index for '" + absoluteDocPath + "'"
  }

  /** `Object.entries(undefined)`: the message of the TypeError it throws. */
  const ObjectEntriesOfUndefined := "Cannot convert undefined or null to object"

  /** `Key ${key} ...` with `key` an object, which interpolates as `[object Object]`. */
  const MissingMetadataMessage := "Key [object Object] does not include expected metadata. Consider deleting this key."

  const NotImplementedMessage := "Not implemented"

  // ---------------------------------------------------------------------------
  // The field table `initialize` builds

  /**
   * The field -> index-prefix table after the given prefixes: each prefix
   * under its last `/`-segment, later prefixes overwriting earlier ones;
   * an empty last segment is skipped, and so is `__proto__`, which a plain
   * object ignores.
   */
  function PrefixTable(prefixes: seq<string>): map<string, string>
    decreases |prefixes|
  {
    if prefixes == [] then map[]
    else
      var table := PrefixTable(prefixes[..|prefixes| - 1]);
      var prefix := prefixes[|prefixes| - 1];
      var lastSegment := LastSegment(prefix);
      if lastSegment != "" && lastSegment != ProtoKey then table[lastSegment := prefix] else table
  }

  /** A prefix gets an entry in the table. */
  predicate Registers(prefix: string) {
    LastSegment(prefix) != "" && LastSegment(prefix) != ProtoKey
  }

  /**
   * Every entry of the table is a prefix ending in the entry's name, and the
   * name is neither empty nor `__proto__`.
   */
  lemma {:induction false} PrefixTableEntry(prefixes: seq<string>, name: string)
    requires name in PrefixTable(prefixes)
    ensures name != "" && name != ProtoKey
    ensures PrefixTable(prefixes)[name] in prefixes
    ensures LastSegment(PrefixTable(prefixes)[name]) == name
    decreases |prefixes|
  {
    var init := prefixes[..|prefixes| - 1];
    var last := prefixes[|prefixes| - 1];
    if !(Registers(last) && LastSegment(last) == name) {
      PrefixTableEntry(init, name);
      var i :| 0 <= i < |init| && init[i] == PrefixTable(init)[name];
      assert prefixes[i] == init[i];
    }
  }

  /** Every prefix that registers a name gets it in the table. */
  lemma {:induction false} PrefixTableComplete(prefixes: seq<string>, i: nat)
    requires i < |prefixes| && Registers(prefixes[i])
    ensures LastSegment(prefixes[i]) in PrefixTable(prefixes)
    decreases |prefixes|
  {
    if i < |prefixes| - 1 {
      var init := prefixes[..|prefixes| - 1];
      assert init[i] == prefixes[i];
      PrefixTableComplete(init, i);
    }
  }

  /** Of several prefixes with the same last segment, the table keeps the last listed. */
  lemma {:induction false} PrefixTableLastWins(prefixes: seq<string>, i: nat)
    requires i < |prefixes| && Registers(prefixes[i])
    requires forall j :: i < j < |prefixes| ==> LastSegment(prefixes[j]) != LastSegment(prefixes[i])
    ensures LastSegment(prefixes[i]) in PrefixTable(prefixes)
    ensures PrefixTable(prefixes)[LastSegment(prefixes[i])] == prefixes[i]
    decreases |prefixes|
  {
    if i < |prefixes| - 1 {
      var init := prefixes[..|prefixes| - 1];
      var name := LastSegment(prefixes[i]);
      assert init[i] == prefixes[i];
      forall j | i < j < |init| ensures LastSegment(init[j]) != name {
        assert init[j] == prefixes[j];
      }
      PrefixTableLastWins(init, i);
      assert LastSegment(prefixes[|prefixes| - 1]) != name;
    }
  }

  // ---------------------------------------------------------------------------
  // Index writes

  /** The field is indexed for this entry: the entry owns it and its value is truthy. */
  predicate Indexes(entry: JsonValue, propertyName: string) {
    Property(entry, propertyName).Some? && Truthy(Property(entry, propertyName).value)
  }

  /**
   * The store after writing `e` under `keys`: the writes the store refuses
   * leave their keys as they were, the others store `e`.
   */
  function WriteAll(entries: map<string, KVEntry>, keys: set<string>, e: KVEntry, failing: set<string>)
    : (written: map<string, KVEntry>)
    ensures written.Keys == entries.Keys + (keys - failing)
    ensures forall k :: k in keys - failing ==> written[k] == e
    ensures forall k :: k in entries && k !in keys - failing ==> written[k] == entries[k]
  {
    map k | k in entries.Keys + (keys - failing) :: if k in keys - failing then e else entries[k]
  }

  /** Writing one more key adds it, unless the store refuses it. */
  lemma WriteAllOneMore(entries: map<string, KVEntry>, keys: set<string>, k: string, e: KVEntry, failing: set<string>)
    ensures WriteAll(entries, keys + {k}, e, failing)
      == if k in failing then WriteAll(entries, keys, e, failing) else WriteAll(entries, keys, e, failing)[k := e]
  {
  }

  class KeyworkCollection {
    /** The KV namespace binding provided by the parent Worker. */
    const kvNamespace: KVNamespace
    /** A slash-separated path to the collection. */
    const collectionPath: string
    /** The namespace constants. */
    const layout: KeyLayout
    /** `JSON.stringify` and `JSON.parse`. */
    const codec: JsonCodec
    /** Field name -> index prefix; `None` (`undefined`) until `initialize` runs. */
    var indexPathByPropertyName: Option<map<string, string>>

    constructor (kvNamespace: KVNamespace, collectionPath: string, layout: KeyLayout, codec: JsonCodec)
      ensures this.kvNamespace == kvNamespace && this.collectionPath == collectionPath
      ensures this.layout == layout && this.codec == codec
      ensures indexPathByPropertyName == None
    {
      this.kvNamespace := kvNamespace;
      this.collectionPath := collectionPath;
      this.layout := layout;
      this.codec := codec;
      indexPathByPropertyName := None;
    }

    // -------------------------------------------------------------------------
    // The five path builders: `resolvePathSegments` bound to the collection
    // path and one namespace constant.

    /** The builder of namespace `n` (0 to 4, in the order of `KeyLayout.Namespaces`). */
    function PathBuilder(n: nat, segments: seq<string>): string
      requires n < 5
    {
      Join([collectionPath, layout.Namespaces()[n]] + segments)
    }

    function DocumentsPath(segments: seq<string>): string { PathBuilder(0, segments) }
    function IndexesPath(segments: seq<string>): string { PathBuilder(1, segments) }
    function IndexPrefixesPath(segments: seq<string>): string { PathBuilder(2, segments) }
    function IndexByIdPath(segments: seq<string>): string { PathBuilder(3, segments) }
    function IndexByDocumentPath(segments: seq<string>): string { PathBuilder(4, segments) }

    /** Every key a builder makes is rooted at `collectionPath`, under the builder's constant. */
    lemma BuilderRooted(n: nat, segments: seq<string>)
      requires n < 5
      ensures collectionPath + "/" + layout.Namespaces()[n] <= PathBuilder(n, segments)
      ensures PathBuilder(n, []) <= PathBuilder(n, segments)
    {
      var namespace := layout.Namespaces()[n];
      RootedAt(collectionPath, namespace, segments);
      assert [collectionPath, namespace] + [] == [collectionPath, namespace];
      assert [collectionPath, namespace][..1] == [collectionPath];
      assert Join([collectionPath, namespace]) == collectionPath + "/" + namespace;
    }

    /** No key of one namespace is a key of another. */
    lemma BuildersDisjoint(n: nat, m: nat, segmentsN: seq<string>, segmentsM: seq<string>)
      requires layout.Valid() && n < 5 && m < 5 && n != m
      ensures PathBuilder(n, segmentsN) != PathBuilder(m, segmentsM)
    {
      if n < m {
        NamespacesDisjoint(collectionPath, layout.Namespaces()[n], layout.Namespaces()[m], segmentsN, segmentsM);
      } else {
        NamespacesDisjoint(collectionPath, layout.Namespaces()[m], layout.Namespaces()[n], segmentsM, segmentsN);
      }
    }

    // -------------------------------------------------------------------------
    // initialize

    /** `fetchIndexPrefixes`: the names of the keys under the index-prefix namespace. */
    method FetchIndexPrefixes() returns (prefixes: seq<string>)
      ensures ListsKeys(kvNamespace.entries, IndexPrefixesPath([]), prefixes)
    {
      var response := kvNamespace.List(IndexPrefixesPath([]));
      prefixes := Names(response.keys);
    }

    /**
     * `initialize`: the table of every listed index prefix under its last
     * segment. Returns the collection itself.
     */
    method Initialize() returns (self: KeyworkCollection, ghost prefixes: seq<string>)
      modifies this
      ensures self == this
      ensures ListsKeys(kvNamespace.entries, IndexPrefixesPath([]), prefixes)
      ensures indexPathByPropertyName == Some(PrefixTable(prefixes))
    {
      var indexPrefixes := FetchIndexPrefixes();
      var indexPathByProperty: map<string, string> := map[];
      var i := 0;
      while i < |indexPrefixes|
        invariant i <= |indexPrefixes|
        invariant indexPathByProperty == PrefixTable(indexPrefixes[..i])
      {
        var lastSegment := LastSegment(indexPrefixes[i]);
        if lastSegment != "" && lastSegment != ProtoKey {
          indexPathByProperty := indexPathByProperty[lastSegment := indexPrefixes[i]];
        }
        assert indexPrefixes[..i + 1][..i] == indexPrefixes[..i];
        i := i + 1;
      }
      assert indexPrefixes[..i] == indexPrefixes;
      indexPathByPropertyName := Some(indexPathByProperty);
      prefixes := indexPrefixes;
      self := this;
    }

    /** After `initialize`, every table entry is an index-prefix key of the store, named by its last segment. */
    lemma InitializedTable(prefixes: seq<string>)
      requires ListsKeys(kvNamespace.entries, IndexPrefixesPath([]), prefixes)
      ensures forall name :: name in PrefixTable(prefixes) ==>
        && PrefixTable(prefixes)[name] in kvNamespace.entries
        && IndexPrefixesPath([]) <= PrefixTable(prefixes)[name]
        && LastSegment(PrefixTable(prefixes)[name]) == name
    {
      forall name | name in PrefixTable(prefixes) {
        PrefixTableEntry(prefixes, name);
      }
    }

    // -------------------------------------------------------------------------
    // addEntryToIndexes

    /** `JSON.stringify(metadata)`. */
    function Serialized(md: Metadata): string {
      codec.stringify(ToJson(md))
    }

    /** The two mandatory index keys of a document. */
    function MandatoryKeys(md: Metadata): set<string> {
      {IndexByIdPath([md.id]), IndexByDocumentPath([md.relativeDocPath])}
    }

    /** What a mandatory index key holds: the serialised metadata, the expiry options and the metadata itself. */
    function MandatoryEntry(md: Metadata): KVEntry {
      KVEntry(Serialized(md), md.expiration, md.expirationTtl, Some(md))
    }

    /** What a field index key holds: the same, without the metadata attachment. */
    function FieldEntry(md: Metadata): KVEntry {
      KVEntry(Serialized(md), md.expiration, md.expirationTtl, None)
    }

    /** The field index key of a value: `indexPath/id/JSON.stringify(value)`. */
    function FieldKey(indexPath: string, md: Metadata, value: JsonValue): string {
      Join([indexPath, md.id, codec.stringify(value)])
    }

    /** The field index keys for the named fields that the table registers and the entry indexes. */
    function FieldKeys(table: map<string, string>, entry: JsonValue, md: Metadata, names: set<string>): set<string> {
      set name | name in names && name in table && Indexes(entry, name)
        :: FieldKey(table[name], md, Property(entry, name).value)
    }

    /** The write of this field's index key fails. */
    predicate FieldFails(table: map<string, string>, entry: JsonValue, md: Metadata, name: string) {
      name in table && Indexes(entry, name)
      && FieldKey(table[name], md, Property(entry, name).value) in kvNamespace.failing
    }

    /** The error names a field whose index write failed. */
    ghost predicate ReportsFieldFailure(table: map<string, string>, entry: JsonValue, md: Metadata, error: CollectionError) {
      exists name :: FieldFails(table, entry, md, name)
        && error == ResourceError(FieldIndexMessage(name, md.absoluteDocPath), 500)
    }

    /** Adding one name adds its key, if the field is registered and indexed. */
    lemma FieldKeysOneMore(table: map<string, string>, entry: JsonValue, md: Metadata, names: set<string>, name: string)
      requires name in table && Indexes(entry, name)
      ensures FieldKeys(table, entry, md, names + {name})
        == FieldKeys(table, entry, md, names) + {FieldKey(table[name], md, Property(entry, name).value)}
    {
    }

    /**
     * `addEntryToIndexes`: writes the two mandatory keys; if both succeed and
     * the document is JSON, writes one field index key per registered field
     * whose value in the entry is truthy. Every write of a stage is issued;
     * a refused write makes the stage fail with a resource error, and a
     * failed mandatory stage ends the operation.
     */
    method AddEntryToIndexes(entry: JsonValue, md: Metadata) returns (r: Result<(), CollectionError>)
      modifies kvNamespace
      ensures var afterMandatory := WriteAll(old(kvNamespace.entries), MandatoryKeys(md), MandatoryEntry(md), kvNamespace.failing);
        if !(MandatoryKeys(md) !! kvNamespace.failing) then
          r == Err(ResourceError(MandatoryIndexesMessage(md.absoluteDocPath), 500))
          && kvNamespace.entries == afterMandatory
        else if md.deserializeAs != "json" then
          r == Ok(()) && kvNamespace.entries == afterMandatory
        else if indexPathByPropertyName.None? then
          r == Err(TypeError(ObjectEntriesOfUndefined)) && kvNamespace.entries == afterMandatory
        else
          var table := indexPathByPropertyName.value;
          var fieldKeys := FieldKeys(table, entry, md, table.Keys);
          && kvNamespace.entries == WriteAll(afterMandatory, fieldKeys, FieldEntry(md), kvNamespace.failing)
          && (r.Ok? <==> fieldKeys !! kvNamespace.failing)
          && (r.Err? ==> ReportsFieldFailure(table, entry, md, r.error))
    {
      var mandatoryOk := WriteMandatoryIndexes(md);
      if !mandatoryOk {
        return Err(ResourceError(MandatoryIndexesMessage(md.absoluteDocPath), 500));
      }
      if md.deserializeAs != "json" {
        return Ok(());
      }
      if indexPathByPropertyName.None? {
        return Err(TypeError(ObjectEntriesOfUndefined));
      }
      r := WriteFieldIndexes(indexPathByPropertyName.value, entry, md);
    }

    /** The mandatory stage of `addEntryToIndexes`: both writes are issued; it succeeds when both do. */
    method WriteMandatoryIndexes(md: Metadata) returns (ok: bool)
      modifies kvNamespace
      ensures ok <==> MandatoryKeys(md) !! kvNamespace.failing
      ensures kvNamespace.entries == WriteAll(old(kvNamespace.entries), MandatoryKeys(md), MandatoryEntry(md), kvNamespace.failing)
    {
      var serializedMetadata := Serialized(md);
      var idKey, pathKey := IndexByIdPath([md.id]), IndexByDocumentPath([md.relativeDocPath]);
      ghost var before := kvNamespace.entries;
      var idOk := kvNamespace.Put(idKey, serializedMetadata, md.expiration, md.expirationTtl, Some(md));
      var pathOk := kvNamespace.Put(pathKey, serializedMetadata, md.expiration, md.expirationTtl, Some(md));
      WriteAllOneMore(before, {}, idKey, MandatoryEntry(md), kvNamespace.failing);
      WriteAllOneMore(before, {idKey}, pathKey, MandatoryEntry(md), kvNamespace.failing);
      assert {} + {idKey} == {idKey} && {idKey} + {pathKey} == MandatoryKeys(md);
      assert WriteAll(before, {}, MandatoryEntry(md), kvNamespace.failing) == before;
      ok := idOk && pathOk;
    }

    /** The field stage of `addEntryToIndexes`: one write per registered, indexed field. */
    method WriteFieldIndexes(table: map<string, string>, entry: JsonValue, md: Metadata)
      returns (r: Result<(), CollectionError>)
      modifies kvNamespace
      ensures var fieldKeys := FieldKeys(table, entry, md, table.Keys);
        && kvNamespace.entries == WriteAll(old(kvNamespace.entries), fieldKeys, FieldEntry(md), kvNamespace.failing)
        && (r.Ok? <==> fieldKeys !! kvNamespace.failing)
        && (r.Err? ==> ReportsFieldFailure(table, entry, md, r.error))
    {
      var remaining := table.Keys;
      r := Ok(());
      FieldStageStart(old(kvNamespace.entries), table, entry, md);
      while remaining != {}
        invariant remaining <= table.Keys
        invariant kvNamespace.entries
          == WriteAll(old(kvNamespace.entries), FieldKeys(table, entry, md, table.Keys - remaining), FieldEntry(md), kvNamespace.failing)
        invariant r.Ok? <==> FieldKeys(table, entry, md, table.Keys - remaining) !! kvNamespace.failing
        invariant r.Err? ==> ReportsFieldFailure(table, entry, md, r.error)
        decreases |remaining|
      {
        var propertyName :| propertyName in remaining;
        ghost var done := table.Keys - remaining;
        r := WriteNextField(old(kvNamespace.entries), table, entry, md, done, propertyName, r);
        assert table.Keys - (remaining - {propertyName}) == done + {propertyName};
        remaining := remaining - {propertyName};
      }
      assert table.Keys - remaining == table.Keys;
    }

    /** Before the first field, nothing of the field stage is written. */
    lemma FieldStageStart(before: map<string, KVEntry>, table: map<string, string>, entry: JsonValue, md: Metadata)
      ensures FieldKeys(table, entry, md, table.Keys - table.Keys) == {}
      ensures WriteAll(before, FieldKeys(table, entry, md, table.Keys - table.Keys), FieldEntry(md), kvNamespace.failing) == before
    {
      assert table.Keys - table.Keys == {};
    }

    /** One iteration of the field stage: the field's write, and the first failure recorded. */
    method WriteNextField(ghost before: map<string, KVEntry>, table: map<string, string>, entry: JsonValue, md: Metadata,
                          ghost done: set<string>, propertyName: string, r0: Result<(), CollectionError>)
      returns (r: Result<(), CollectionError>)
      requires propertyName in table
      requires kvNamespace.entries == WriteAll(before, FieldKeys(table, entry, md, done), FieldEntry(md), kvNamespace.failing)
      requires r0.Ok? <==> FieldKeys(table, entry, md, done) !! kvNamespace.failing
      requires r0.Err? ==> ReportsFieldFailure(table, entry, md, r0.error)
      modifies kvNamespace
      ensures kvNamespace.entries
        == WriteAll(before, FieldKeys(table, entry, md, done + {propertyName}), FieldEntry(md), kvNamespace.failing)
      ensures r.Ok? <==> FieldKeys(table, entry, md, done + {propertyName}) !! kvNamespace.failing
      ensures r.Err? ==> ReportsFieldFailure(table, entry, md, r.error)
    {
      var ok := WriteFieldIndex(table, entry, md, propertyName);
      FieldStep(before, table, entry, md, done, propertyName);
      r := r0;
      if !ok && r.Ok? {
        r := Err(ResourceError(FieldIndexMessage(propertyName, md.absoluteDocPath), 500));
      }
    }

    /** One field of the field stage: `if (!value) return`, else one write. */
    method WriteFieldIndex(table: map<string, string>, entry: JsonValue, md: Metadata, propertyName: string)
      returns (ok: bool)
      requires propertyName in table
      modifies kvNamespace
      ensures ok <==> !FieldFails(table, entry, md, propertyName)
      ensures kvNamespace.entries ==
        if Indexes(entry, propertyName) && !FieldFails(table, entry, md, propertyName)
        then old(kvNamespace.entries)[FieldKey(table[propertyName], md, Property(entry, propertyName).value) := FieldEntry(md)]
        else old(kvNamespace.entries)
    {
      var value := Property(entry, propertyName);
      if value.None? || !Truthy(value.value) {
        return true;
      }
      ok := kvNamespace.Put(FieldKey(table[propertyName], md, value.value), Serialized(md),
                            md.expiration, md.expirationTtl, None);
    }

    /** How one more field changes the written store and the stage's outcome. */
    lemma FieldStep(before: map<string, KVEntry>, table: map<string, string>, entry: JsonValue, md: Metadata,
                    done: set<string>, name: string)
      requires name in table
      ensures var keys := FieldKeys(table, entry, md, done);
        var keysAfter := FieldKeys(table, entry, md, done + {name});
        && (keysAfter !! kvNamespace.failing <==> keys !! kvNamespace.failing && !FieldFails(table, entry, md, name))
        && WriteAll(before, keysAfter, FieldEntry(md), kvNamespace.failing) ==
             if Indexes(entry, name) && !FieldFails(table, entry, md, name)
             then WriteAll(before, keys, FieldEntry(md), kvNamespace.failing)[FieldKey(table[name], md, Property(entry, name).value) := FieldEntry(md)]
             else WriteAll(before, keys, FieldEntry(md), kvNamespace.failing)
    {
      var keys := FieldKeys(table, entry, md, done);
      if Indexes(entry, name) {
        var key := FieldKey(table[name], md, Property(entry, name).value);
        FieldKeysOneMore(table, entry, md, done, name);
        WriteAllOneMore(before, keys, key, FieldEntry(md), kvNamespace.failing);
      } else {
        assert FieldKeys(table, entry, md, done + {name}) == keys;
      }
    }

    // -------------------------------------------------------------------------
    // Reads

    /** `fetchDocumentsListByID`: the listing under the by-id namespace. */
    method FetchDocumentsListByID() returns (result: ListResult)
      ensures IsListing(kvNamespace.entries, IndexByIdPath([]), result.keys)
      ensures result.listComplete && result.cursor == None
    {
      result := kvNamespace.List(IndexByIdPath([]));
    }

    /** `fetchDocumentsList`: the by-id listing, each key projected to `metadata?.relativeDocPath`. */
    method FetchDocumentsList() returns (result: DocumentsList, ghost listing: seq<ListKey>)
      ensures IsListing(kvNamespace.entries, IndexByIdPath([]), listing)
      ensures |result.keys| == |listing|
      ensures forall i :: 0 <= i < |listing| ==>
        result.keys[i] == if listing[i].metadata.Some? then Some(listing[i].metadata.value.relativeDocPath) else None
      ensures result.listComplete && result.cursor == None
    {
      var listResult := FetchDocumentsListByID();
      var keys := listResult.keys;
      var paths := seq(|keys|, i requires 0 <= i < |keys| =>
        if keys[i].metadata.Some? then Some(keys[i].metadata.value.relativeDocPath) else None);
      result := DocumentsList(paths, listResult.listComplete, listResult.cursor);
      listing := keys;
    }

    /** What `get(key, {type: 'json'})` yields: `null` for a missing key, a SyntaxError for a value that does not parse. */
    function ReadJson(entries: map<string, KVEntry>, key: string): (r: Result<Option<JsonValue>, CollectionError>)
      ensures r.Ok? && r.value.None? <==> key !in entries
      ensures r.Err? <==> key in entries && codec.parse(entries[key].value).None?
      ensures r.Ok? && r.value.Some? ==> key in entries && codec.parse(entries[key].value) == r.value
    {
      if key !in entries then Ok(None)
      else match codec.parse(entries[key].value)
        case None => Err(SyntaxError)
        case Some(j) => Ok(Some(j))
    }

    /** `fetchDocumentMetadataByPath`: the parsed value of the by-document-path key. */
    method FetchDocumentMetadataByPath(relativeDocPath: string) returns (r: Result<Option<JsonValue>, CollectionError>)
      ensures r == ReadJson(kvNamespace.entries, IndexByDocumentPath([relativeDocPath]))
    {
      var stored := kvNamespace.Get(IndexByDocumentPath([relativeDocPath]));
      if stored.None? {
        return Ok(None);
      }
      var parsed := codec.parse(stored.value);
      if parsed.None? {
        return Err(SyntaxError);
      }
      r := Ok(parsed);
    }

    /** `document` is this collection's reference to the document whose metadata `key` carries. */
    predicate RefersTo(document: DocumentReference, key: ListKey) {
      key.metadata.Some? && document == DocumentReference(key.metadata.value.absoluteDocPath, this)
    }

    /**
     * `fetchDocuments`: the by-id listing with one document reference per key,
     * in listing order; a key without metadata makes the whole call fail.
     */
    method FetchDocuments() returns (r: Result<DocumentsResponse, CollectionError>, ghost listing: seq<ListKey>)
      ensures IsListing(kvNamespace.entries, IndexByIdPath([]), listing)
      ensures r.Ok? <==> forall i :: 0 <= i < |listing| ==> listing[i].metadata.Some?
      ensures r.Err? ==> r.error == PlainError(MissingMetadataMessage)
      ensures r.Ok? ==> && r.value.keys == listing && r.value.listComplete && r.value.cursor == None
                        && |r.value.documents| == |listing|
                        && forall i :: 0 <= i < |listing| ==> RefersTo(r.value.documents[i], listing[i])
    {
      var listResult := FetchDocumentsListByID();
      listing := listResult.keys;
      var documents: seq<DocumentReference> := [];
      var i := 0;
      while i < |listResult.keys|
        invariant i <= |listResult.keys| && |documents| == i
        invariant forall j :: 0 <= j < i ==> RefersTo(documents[j], listing[j])
      {
        var key := listResult.keys[i];
        if key.metadata.None? {
          r := Err(PlainError(MissingMetadataMessage));
          return;
        }
        documents := documents + [DocumentReference(key.metadata.value.absoluteDocPath, this)];
        i := i + 1;
      }
      r := Ok(DocumentsResponse(listResult.keys, listResult.listComplete, listResult.cursor, documents));
    }

    /** `query`: not implemented; always throws. */
    function Query(): (r: Result<(), CollectionError>)
      ensures r.Err? && r.error.PlainError? && r.error.message == NotImplementedMessage
    {
      Err(PlainError(NotImplementedMessage))
    }

    /** `permanentlyDeleteThisCollection`: not implemented; always throws. */
    function PermanentlyDeleteThisCollection(): (r: Result<(), CollectionError>)
      ensures r.Err? && r.error.PlainError? && r.error.message == NotImplementedMessage
    {
      Err(PlainError(NotImplementedMessage))
    }

    // -------------------------------------------------------------------------
    // Properties of the index scheme

    /**
     * Every key `addEntryToIndexes` writes holds the same serialised metadata,
     * so the metadata can be read through any of them.
     */
    lemma SamePayload(entries: map<string, KVEntry>, table: map<string, string>, entry: JsonValue, md: Metadata)
      ensures var afterMandatory := WriteAll(entries, MandatoryKeys(md), MandatoryEntry(md), kvNamespace.failing);
        var after := WriteAll(afterMandatory, FieldKeys(table, entry, md, table.Keys), FieldEntry(md), kvNamespace.failing);
        forall k :: k in (MandatoryKeys(md) + FieldKeys(table, entry, md, table.Keys)) - kvNamespace.failing ==>
          k in after && after[k].value == Serialized(md)
    {
    }

    /**
     * Reading the by-document-path key back after a successful mandatory
     * write yields the metadata: `fetchDocumentMetadataByPath` round-trips
     * `addEntryToIndexes`, whatever field keys were written after it.
     */
    lemma MetadataReadsBack(entries: map<string, KVEntry>, fieldKeys: set<string>, md: Metadata)
      requires RoundTrips(codec)
      requires IndexByDocumentPath([md.relativeDocPath]) !in kvNamespace.failing
      ensures var afterMandatory := WriteAll(entries, MandatoryKeys(md), MandatoryEntry(md), kvNamespace.failing);
        var after := WriteAll(afterMandatory, fieldKeys, FieldEntry(md), kvNamespace.failing);
        var read := ReadJson(after, IndexByDocumentPath([md.relativeDocPath]));
        read == Ok(Some(ToJson(md))) && FromJson(read.value.value) == Some(md)
    {
      var key := IndexByDocumentPath([md.relativeDocPath]);
      var afterMandatory := WriteAll(entries, MandatoryKeys(md), MandatoryEntry(md), kvNamespace.failing);
      var after := WriteAll(afterMandatory, fieldKeys, FieldEntry(md), kvNamespace.failing);
      assert key in MandatoryKeys(md) - kvNamespace.failing;
      assert after[key].value == Serialized(md);
      assert codec.parse(codec.stringify(ToJson(md))) == Some(ToJson(md));
      FromToJson(md);
    }

    /**
     * A document whose by-id key holds its mandatory entry appears in the
     * by-id listing with its metadata, so `fetchDocuments` returns a
     * reference to it.
     */
    lemma WrittenDocumentIsListed(entries: map<string, KVEntry>, md: Metadata, listing: seq<ListKey>)
      requires IndexByIdPath([md.id]) in entries && entries[IndexByIdPath([md.id])] == MandatoryEntry(md)
      requires IsListing(entries, IndexByIdPath([]), listing)
      ensures exists i :: 0 <= i < |listing| && listing[i] == ListKey(IndexByIdPath([md.id]), Some(md))
    {
      var key := IndexByIdPath([md.id]);
      BuilderRooted(3, [md.id]);
      assert key in KeysWithPrefix(entries, IndexByIdPath([]));
      var i :| 0 <= i < |listing| && Names(listing)[i] == key;
      assert IsListed(entries, IndexByIdPath([]), listing[i]);
    }

    /**
     * A field index key built from a registered prefix lies inside the
     * index-prefix namespace and ends in the serialised value: a later
     * `initialize` lists it and registers that value as a field name.
     */
    lemma FieldKeyUnderIndexPrefixes(indexPath: string, md: Metadata, value: JsonValue)
      requires IndexPrefixesPath([]) <= indexPath
      requires '/' !in codec.stringify(value)
      ensures IndexPrefixesPath([]) <= FieldKey(indexPath, md, value)
      ensures LastSegment(FieldKey(indexPath, md, value)) == codec.stringify(value)
    {
      var segments := [indexPath, md.id, codec.stringify(value)];
      JoinExtends(segments, 1);
      assert segments[..1] == [indexPath];
      LastSegmentOfJoin(segments);
    }
  }
}
