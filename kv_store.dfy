/**
 * The key-value namespace a collection is stored in (a Workers KV binding),
 * reduced to the three calls the collection makes: `put`, `get` and a
 * single-page `list` by prefix. Keys are listed in lexicographic order.
 *
 * A store can refuse a write (quota, size limits, the network); which
 * writes it refuses is a set of keys fixed when the store is built, so that
 * every failure path of the collection can be stated.
 */
module KVStore {
  import opened Wrappers
  import opened DocumentMetadata

  /** A stored value with the options it was written with. */
  datatype KVEntry = KVEntry(
    value: string,
    expiration: Option<int>,
    expirationTtl: Option<int>,
    metadata: Option<Metadata>)

  /** One key of a listing: its name and its metadata attachment. */
  datatype ListKey = ListKey(name: string, metadata: Option<Metadata>)

  /** A page of a listing: `keys`, `list_complete` and `cursor`. */
  datatype ListResult = ListResult(keys: seq<ListKey>, listComplete: bool, cursor: Option<string>)

  // ---------------------------------------------------------------------------
  // Lexicographic order on keys

  /** `a` sorts before `b`: a proper prefix, or smaller at the first difference. */
  predicate LexLess(a: string, b: string)
    decreases |a|
  {
    if b == [] then false
    else if a == [] then true
    else if a[0] != b[0] then a[0] < b[0]
    else LexLess(a[1..], b[1..])
  }

  lemma {:induction false} LexIrreflexive(a: string)
    ensures !LexLess(a, a)
    decreases |a|
  {
    if a != [] {
      LexIrreflexive(a[1..]);
    }
  }

  lemma {:induction false} LexTransitive(a: string, b: string, c: string)
    requires LexLess(a, b) && LexLess(b, c)
    ensures LexLess(a, c)
    decreases |a|
  {
    if a != [] && a[0] == b[0] && b[0] == c[0] {
      LexTransitive(a[1..], b[1..], c[1..]);
    }
  }

  lemma {:induction false} LexTotal(a: string, b: string)
    requires a != b
    ensures LexLess(a, b) || LexLess(b, a)
    decreases |a|
  {
    if a != [] && b != [] && a[0] == b[0] {
      assert a == [a[0]] + a[1..] && b == [b[0]] + b[1..];
      LexTotal(a[1..], b[1..]);
    }
  }

  /** `m` is in `keys` and sorts before every other key there. */
  predicate IsFirst(m: string, keys: set<string>) {
    m in keys && forall k :: k in keys && k != m ==> LexLess(m, k)
  }

  /** A finite non-empty set of keys has a first key. */
  lemma {:induction false} FirstExists(keys: set<string>)
    requires keys != {}
    ensures exists m :: IsFirst(m, keys)
    decreases |keys|
  {
    var x :| x in keys;
    if keys == {x} {
      assert IsFirst(x, keys);
    } else {
      var others := keys - {x};
      FirstExists(others);
      var m :| IsFirst(m, others);
      LexTotal(x, m);
      if LexLess(x, m) {
        forall k | k in keys && k != x ensures LexLess(x, k) {
          if k != m {
            LexTransitive(x, m, k);
          }
        }
        assert IsFirst(x, keys);
      } else {
        assert IsFirst(m, keys);
      }
    }
  }

  /** Names strictly increasing, hence also distinct. */
  ghost predicate Sorted(names: seq<string>) {
    forall i, j :: 0 <= i < j < |names| ==> LexLess(names[i], names[j])
  }

  function Names(keys: seq<ListKey>): (names: seq<string>)
    ensures |names| == |keys| && forall i :: 0 <= i < |keys| ==> names[i] == keys[i].name
  {
    seq(|keys|, i requires 0 <= i < |keys| => keys[i].name)
  }

  /** The keys of `entries` that start with `prefix`. */
  function KeysWithPrefix(entries: map<string, KVEntry>, prefix: string): (keys: set<string>)
    ensures forall k :: k in keys <==> k in entries && prefix <= k
  {
    set k | k in entries && prefix <= k
  }

  /**
   * `names` lists the keys of `entries` under `prefix`: each such key
   * exactly once, in lexicographic order.
   */
  ghost predicate ListsKeys(entries: map<string, KVEntry>, prefix: string, names: seq<string>) {
    && Sorted(names)
    && (forall i :: 0 <= i < |names| ==> names[i] in KeysWithPrefix(entries, prefix))
    && (forall k :: k in KeysWithPrefix(entries, prefix) ==> k in names)
  }

  /** `key` is a key of `entries` under `prefix`, with the metadata stored there. */
  predicate IsListed(entries: map<string, KVEntry>, prefix: string, key: ListKey) {
    key.name in entries && prefix <= key.name && key.metadata == entries[key.name].metadata
  }

  /** `keys` is the listing of `entries` under `prefix`: the keys in order, with their metadata. */
  ghost predicate IsListing(entries: map<string, KVEntry>, prefix: string, keys: seq<ListKey>) {
    && ListsKeys(entries, prefix, Names(keys))
    && (forall i :: 0 <= i < |keys| ==> IsListed(entries, prefix, keys[i]))
  }

  /** Each later key of a sorted sequence differs from its first key. */
  lemma SortedTail(a: seq<string>, k: string)
    requires Sorted(a) && a != [] && k in a[1..]
    ensures k in a && k != a[0] && LexLess(a[0], k)
  {
    var i :| 0 <= i < |a[1..]| && a[1..][i] == k;
    assert a[i + 1] == k;
    LexIrreflexive(a[0]);
  }

  /** Two sorted sequences of the same keys are the same sequence. */
  lemma {:induction false} SortedUnique(a: seq<string>, b: seq<string>)
    requires Sorted(a) && Sorted(b)
    requires forall k :: k in a <==> k in b
    ensures a == b
    decreases |a|
  {
    if a != [] {
      assert a[0] in a;
      assert b != [];
      assert b[0] in b;
      if a[0] != b[0] {
        assert a[0] in b[1..] by {
          var j :| 0 <= j < |b| && b[j] == a[0];
          assert b[1..][j - 1] == a[0];
        }
        assert b[0] in a[1..] by {
          var i :| 0 <= i < |a| && a[i] == b[0];
          assert a[1..][i - 1] == b[0];
        }
        SortedTail(b, a[0]);
        SortedTail(a, b[0]);
        LexTransitive(a[0], b[0], a[0]);
        LexIrreflexive(a[0]);
        assert false;
      }
      forall k ensures k in a[1..] <==> k in b[1..] {
        if k in a[1..] {
          SortedTail(a, k);
          var j :| 0 <= j < |b| && b[j] == k;
          assert b[1..][j - 1] == k;
        }
        if k in b[1..] {
          SortedTail(b, k);
          var i :| 0 <= i < |a| && a[i] == k;
          assert a[1..][i - 1] == k;
        }
      }
      SortedUnique(a[1..], b[1..]);
      assert a == [a[0]] + a[1..] && b == [b[0]] + b[1..];
    } else {
      NoKeysNoSequence(b);
    }
  }

  /** A sequence without elements is empty. */
  lemma NoKeysNoSequence(s: seq<string>)
    ensures (forall k :: k !in s) ==> s == []
  {
    if s != [] {
      assert s[0] in s;
    }
  }

  /** The listing of a store under a prefix is unique. */
  lemma ListingUnique(entries: map<string, KVEntry>, prefix: string, a: seq<ListKey>, b: seq<ListKey>)
    requires IsListing(entries, prefix, a) && IsListing(entries, prefix, b)
    ensures a == b
  {
    SortedUnique(Names(a), Names(b));
    forall i | 0 <= i < |a| ensures a[i] == b[i] {
      assert a[i].name == Names(a)[i] == Names(b)[i] == b[i].name;
    }
  }

  // ---------------------------------------------------------------------------
  // The store

  class KVNamespace {
    /** The stored keys. */
    var entries: map<string, KVEntry>
    /** The keys whose writes the store refuses. */
    const failing: set<string>

    constructor (entries: map<string, KVEntry>, failing: set<string>)
      ensures this.entries == entries && this.failing == failing
    {
      this.entries := entries;
      this.failing := failing;
    }

    /** `put(key, value, {expiration, expirationTtl, metadata})`: rejects, or stores the value. */
    method Put(key: string, value: string, expiration: Option<int>, expirationTtl: Option<int>,
               metadata: Option<Metadata>) returns (ok: bool)
      modifies this
      ensures ok <==> key !in failing
      ensures entries == if ok then old(entries)[key := KVEntry(value, expiration, expirationTtl, metadata)]
                         else old(entries)
    {
      ok := key !in failing;
      if ok {
        entries := entries[key := KVEntry(value, expiration, expirationTtl, metadata)];
      }
    }

    /** `get(key)`: the stored text, `null` (`None`) for a missing key. */
    method Get(key: string) returns (value: Option<string>)
      ensures value.Some? <==> key in entries
      ensures value.Some? ==> value.value == entries[key].value
    {
      if key in entries {
        value := Some(entries[key].value);
      } else {
        value := None;
      }
    }

    /** `list({prefix})`: one complete page holding every key under the prefix, in order. */
    method List(prefix: string) returns (result: ListResult)
      ensures IsListing(entries, prefix, result.keys)
      ensures result.listComplete && result.cursor == None
    {
      var names := SortKeys(KeysWithPrefix(entries, prefix));
      var stored := entries;
      var keys := seq(|names|, i requires 0 <= i < |names| => ListKey(names[i], stored[names[i]].metadata));
      assert Names(keys) == names;
      result := ListResult(keys, true, None);
    }
  }

  /** The keys of a finite set in lexicographic order, by repeatedly taking the first remaining one. */
  method SortKeys(keys: set<string>) returns (names: seq<string>)
    ensures Sorted(names)
    ensures forall k :: k in names <==> k in keys
  {
    var remaining := keys;
    names := [];
    while remaining != {}
      invariant remaining <= keys
      invariant Sorted(names)
      invariant forall i :: 0 <= i < |names| ==> names[i] in keys && names[i] !in remaining
      invariant forall k :: k in keys ==> k in remaining || k in names
      invariant forall i, k :: 0 <= i < |names| && k in remaining ==> LexLess(names[i], k)
      decreases |remaining|
    {
      FirstExists(remaining);
      var first :| IsFirst(first, remaining);
      names := names + [first];
      remaining := remaining - {first};
    }
  }
}
