/**
 * The key scheme of a collection: keys are `/`-separated segment paths,
 * built by `resolvePathSegments` and read back by `split('/')`.
 *
 * `resolvePathSegments` (keywork/uri) is not part of this model: it is
 * taken to join its segments with `/`. The five namespace constants
 * (KeyworkCollection/constants.ts, also not part of this model) form a
 * `KeyLayout` chosen at construction.
 */
module KeyPaths {

  /** `resolvePathSegments(...segments)`: the segments joined with `/`. */
  function Join(segments: seq<string>): (path: string)
    decreases |segments|
  {
    if |segments| == 0 then ""
    else if |segments| == 1 then segments[0]
    else Join(segments[..|segments| - 1]) + "/" + segments[|segments| - 1]
  }

  /** `s.split('/')` then the last element: everything after the last `/`. */
  function LastSegment(s: string): (segment: string)
    ensures |segment| <= |s| && segment == s[|s| - |segment|..]
    ensures '/' !in segment
    ensures |segment| < |s| ==> s[|s| - |segment| - 1] == '/'
    decreases |s|
  {
    if s == [] || s[|s| - 1] == '/' then ""
    else LastSegment(s[..|s| - 1]) + [s[|s| - 1]]
  }

  /** The namespace constants: the segment that follows `collectionPath` in each kind of key. */
  datatype KeyLayout = KeyLayout(
    documents: string,          // DOCUMENTS_KEY
    indexes: string,            // COLLECTION_KEY
    indexPrefixes: string,      // COLLECTION_INDEX_PREFIXES
    byId: string,               // INDEXES_ID_PREFIX
    byDocumentPath: string)     // INDEXES_DOCUMENT_PATH_PREFIX
  {
    function Namespaces(): (names: seq<string>)
      ensures |names| == 5
    {
      [documents, indexes, indexPrefixes, byId, byDocumentPath]
    }

    /** Each constant is one non-empty segment, and no two are equal. */
    predicate Valid() {
      && (forall i :: 0 <= i < 5 ==> Namespaces()[i] != "" && '/' !in Namespaces()[i])
      && (forall i, j :: 0 <= i < j < 5 ==> Namespaces()[i] != Namespaces()[j])
    }
  }

  // ---------------------------------------------------------------------------
  // Properties

  /**
   * Adding segments only extends a path, and what follows the shorter path
   * begins with a `/`.
   */
  lemma {:induction false} JoinExtends(segments: seq<string>, n: nat)
    requires 1 <= n <= |segments|
    ensures Join(segments[..n]) <= Join(segments)
    ensures n < |segments| ==> |Join(segments[..n])| < |Join(segments)| && Join(segments)[|Join(segments[..n])|] == '/'
    decreases |segments| - n
  {
    if n < |segments| {
      var init := segments[..|segments| - 1];
      assert init[..n] == segments[..n];
      if n < |init| {
        JoinExtends(init, n);
      } else {
        assert init == segments[..n];
      }
    } else {
      assert segments[..n] == segments;
    }
  }

  /** The last segment of a joined path is the last segment joined, when that holds no `/`. */
  lemma LastSegmentOfJoin(segments: seq<string>)
    requires |segments| >= 2 && '/' !in segments[|segments| - 1]
    ensures LastSegment(Join(segments)) == segments[|segments| - 1]
  {
    var last := segments[|segments| - 1];
    LastSegmentAfterSlash(Join(segments[..|segments| - 1]), last);
  }

  /** `LastSegment(s + "/" + t)` is `t` when `t` holds no `/`. */
  lemma {:induction false} LastSegmentAfterSlash(s: string, t: string)
    requires '/' !in t
    ensures LastSegment(s + "/" + t) == t
    decreases |t|
  {
    if t == [] {
    } else {
      var init := t[..|t| - 1];
      assert (s + "/" + t)[..|s + "/" + t| - 1] == s + "/" + init;
      LastSegmentAfterSlash(s, init);
      assert init + [t[|t| - 1]] == t;
    }
  }

  /** Every key built as `Join([root, name] + rest)` starts with `root + "/" + name`. */
  lemma RootedAt(root: string, name: string, rest: seq<string>)
    ensures root + "/" + name <= Join([root, name] + rest)
    ensures rest != [] ==>
      |root + "/" + name| < |Join([root, name] + rest)| && Join([root, name] + rest)[|root + "/" + name|] == '/'
  {
    var segments := [root, name] + rest;
    assert segments[..2] == [root, name];
    assert Join([root]) == root;
    JoinExtends(segments, 2);
  }

  /**
   * Keys under two different single-segment namespaces of the same root never
   * coincide, whatever segments follow.
   */
  lemma NamespacesDisjoint(root: string, a: string, b: string, restA: seq<string>, restB: seq<string>)
    requires a != b && '/' !in a && '/' !in b
    ensures Join([root, a] + restA) != Join([root, b] + restB)
  {
    var keyA, keyB := Join([root, a] + restA), Join([root, b] + restB);
    var start := |root| + 1;
    RootedAt(root, a, restA);
    RootedAt(root, b, restB);
    if |a| == |b| {
      var i :| 0 <= i < |a| && a[i] != b[i];
      assert (root + "/" + a)[start + i] == a[i];
      assert (root + "/" + b)[start + i] == b[i];
      assert keyA[start + i] != keyB[start + i];
    } else if |a| < |b| {
      assert (root + "/" + b)[start + |a|] == b[|a|];
      SegmentBoundary(root, a, restA, keyB, start + |a|);
    } else {
      assert (root + "/" + a)[start + |b|] == a[|b|];
      SegmentBoundary(root, b, restB, keyA, start + |b|);
    }
  }

  /** A key that has a non-`/` character right after `root + "/" + name` is not under that namespace. */
  lemma SegmentBoundary(root: string, name: string, rest: seq<string>, other: string, at: nat)
    requires at == |root + "/" + name| && at < |other| && other[at] != '/'
    ensures Join([root, name] + rest) != other
  {
    RootedAt(root, name, rest);
    if rest == [] {
      assert [root, name] + rest == [root, name];
      assert Join([root, name]) == root + "/" + name;
      assert |Join([root, name] + rest)| == at;
    }
  }
}
