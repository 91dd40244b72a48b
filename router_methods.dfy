/**
 * routerMethodToHTTPMethod (routerMethodToHTTPMethod.ts): the map from
 * router methods back to HTTP methods, built by swapping every entry of
 * `methodVerbToRouterMethod` and handing the swapped pairs to `new Map`.
 *
 * `methodVerbToRouterMethod` is not part of this model: it is a parameter,
 * given as its entries in iteration order. `new Map(entries)` inserts the
 * entries from first to last, so a later pair overwrites an earlier one
 * with the same key.
 */
module RouterMethods {

  /** `new Map(pairs)`: inserting the pairs in order, the later one winning. */
  function MapOf<K(==), V>(pairs: seq<(K, V)>): (m: map<K, V>)
    ensures |m| <= |pairs|
    decreases |pairs|
  {
    if pairs == [] then map[]
    else MapOf(pairs[..|pairs| - 1])[pairs[|pairs| - 1].0 := pairs[|pairs| - 1].1]
  }

  /** Each entry `(h, r)` swapped to `(r, h)`: the `Array.from` mapping step. */
  function Swapped<H, R>(pairs: seq<(H, R)>): (s: seq<(R, H)>)
    ensures |s| == |pairs|
    ensures forall i :: 0 <= i < |pairs| ==> s[i] == (pairs[i].1, pairs[i].0)
  {
    seq(|pairs|, i requires 0 <= i < |pairs| => (pairs[i].1, pairs[i].0))
  }

  /** `routerMethodToHTTPMethod`, from the entries of `methodVerbToRouterMethod`. */
  function RouterMethodToHTTPMethod<H, R(==)>(entries: seq<(H, R)>): (inverse: map<R, H>)
    ensures |inverse| <= |entries|
  {
    MapOf(Swapped(entries))
  }

  /** The values of the source entries (router methods). */
  function ValuesOf<H, R(==)>(entries: seq<(H, R)>): (vs: set<R>)
    ensures forall i :: 0 <= i < |entries| ==> entries[i].1 in vs
    ensures forall r :: r in vs ==> exists i :: 0 <= i < |entries| && entries[i].1 == r
  {
    set i | 0 <= i < |entries| :: entries[i].1
  }

  /** The keys of a `Map` are distinct: what `methodVerbToRouterMethod.entries()` yields. */
  predicate KeysDistinct<H(==), R>(entries: seq<(H, R)>) {
    forall i, j :: 0 <= i < j < |entries| ==> entries[i].0 != entries[j].0
  }

  /** No two HTTP methods map to the same router method. */
  predicate ValuesDistinct<H, R(==)>(entries: seq<(H, R)>) {
    forall i, j :: 0 <= i < j < |entries| ==> entries[i].1 != entries[j].1
  }

  // ---------------------------------------------------------------------------
  // Properties of `new Map(pairs)`

  /** The keys of `new Map(pairs)` are the first components of the pairs. */
  lemma {:induction false} MapOfKeys<K, V>(pairs: seq<(K, V)>)
    ensures MapOf(pairs).Keys == set i | 0 <= i < |pairs| :: pairs[i].0
    decreases |pairs|
  {
    if pairs != [] {
      var init := pairs[..|pairs| - 1];
      MapOfKeys(init);
      FirstsSnoc(pairs, init);
    }
  }

  /** The first components of the pairs: those of all but the last pair, and the last pair's. */
  lemma FirstsSnoc<K, V>(pairs: seq<(K, V)>, init: seq<(K, V)>)
    requires pairs != [] && init == pairs[..|pairs| - 1]
    ensures (set i | 0 <= i < |pairs| :: pairs[i].0) == (set i | 0 <= i < |init| :: init[i].0) + {pairs[|pairs| - 1].0}
  {
    var all := set i | 0 <= i < |pairs| :: pairs[i].0;
    var before := set i | 0 <= i < |init| :: init[i].0;
    forall k | k in all ensures k in before + {pairs[|pairs| - 1].0} {
      var i :| 0 <= i < |pairs| && pairs[i].0 == k;
      if i < |init| {
        assert init[i] == pairs[i];
      }
    }
    forall k | k in before ensures k in all {
      var i :| 0 <= i < |init| && init[i].0 == k;
      assert pairs[i] == init[i];
    }
  }

  /** A key of `new Map(pairs)` holds the value of the LAST pair with that key. */
  lemma {:induction false} MapOfLastWins<K, V>(pairs: seq<(K, V)>, i: nat)
    requires i < |pairs|
    requires forall j :: i < j < |pairs| ==> pairs[j].0 != pairs[i].0
    ensures pairs[i].0 in MapOf(pairs) && MapOf(pairs)[pairs[i].0] == pairs[i].1
    decreases |pairs|
  {
    if i < |pairs| - 1 {
      var init := pairs[..|pairs| - 1];
      assert init[i] == pairs[i];
      MapOfLastWins(init, i);
    }
  }

  /** Every entry of `new Map(pairs)` is one of the pairs. */
  lemma {:induction false} MapOfFromPairs<K, V>(pairs: seq<(K, V)>, k: K)
    requires k in MapOf(pairs)
    ensures exists i :: 0 <= i < |pairs| && pairs[i] == (k, MapOf(pairs)[k])
    decreases |pairs|
  {
    var last := |pairs| - 1;
    if pairs[last].0 != k {
      var init := pairs[..last];
      MapOfFromPairs(init, k);
      var i :| 0 <= i < |init| && init[i] == (k, MapOf(init)[k]);
      assert pairs[i] == init[i];
    }
  }

  // ---------------------------------------------------------------------------
  // Properties of `routerMethodToHTTPMethod`

  /** The keys of the result are exactly the router methods of the source. */
  lemma InverseKeys<H, R>(entries: seq<(H, R)>)
    ensures RouterMethodToHTTPMethod(entries).Keys == ValuesOf(entries)
  {
    var s := Swapped(entries);
    MapOfKeys(s);
    assert (set i | 0 <= i < |s| :: s[i].0) == ValuesOf(entries) by {
      forall r | r in ValuesOf(entries) ensures r in set i | 0 <= i < |s| :: s[i].0 {
        var i :| 0 <= i < |entries| && entries[i].1 == r;
        assert s[i].0 == r;
      }
    }
  }

  /** Every result entry `r -> h` comes from a source entry `h -> r`. */
  lemma InverseFromSource<H, R>(entries: seq<(H, R)>, r: R)
    requires r in RouterMethodToHTTPMethod(entries)
    ensures exists i :: 0 <= i < |entries| && entries[i] == (RouterMethodToHTTPMethod(entries)[r], r)
  {
    var s := Swapped(entries);
    MapOfFromPairs(s, r);
    var i :| 0 <= i < |s| && s[i] == (r, MapOf(s)[r]);
    assert entries[i] == (MapOf(s)[r], r);
  }

  /**
   * When several HTTP methods share a router method, the one latest in the
   * source's iteration order is the one the result keeps.
   */
  lemma InverseLastWins<H, R>(entries: seq<(H, R)>, i: nat)
    requires i < |entries|
    requires forall j :: i < j < |entries| ==> entries[j].1 != entries[i].1
    ensures entries[i].1 in RouterMethodToHTTPMethod(entries)
    ensures RouterMethodToHTTPMethod(entries)[entries[i].1] == entries[i].0
  {
    MapOfLastWins(Swapped(entries), i);
  }

  /**
   * For an injective source the two maps are mutual inverses:
   * `result[source[h]] == h` for every source key and
   * `source[result[r]] == r` for every result key.
   */
  lemma InjectiveSourceIsInverted<H, R>(entries: seq<(H, R)>)
    requires KeysDistinct(entries) && ValuesDistinct(entries)
    ensures var source := MapOf(entries);
      var inverse := RouterMethodToHTTPMethod(entries);
      && (forall h :: h in source ==> source[h] in inverse && inverse[source[h]] == h)
      && (forall r :: r in inverse ==> inverse[r] in source && source[inverse[r]] == r)
  {
    var source := MapOf(entries);
    var inverse := RouterMethodToHTTPMethod(entries);
    forall h | h in source ensures source[h] in inverse && inverse[source[h]] == h {
      MapOfFromPairs(entries, h);
      var i :| 0 <= i < |entries| && entries[i] == (h, source[h]);
      InverseLastWins(entries, i);
    }
    forall r | r in inverse ensures inverse[r] in source && source[inverse[r]] == r {
      InverseFromSource(entries, r);
      var i :| 0 <= i < |entries| && entries[i] == (inverse[r], r);
      MapOfLastWins(entries, i);
    }
  }

  /** The values of `entries` are those of all but the last entry, plus the last one's. */
  lemma ValuesOfSnoc<H, R>(entries: seq<(H, R)>)
    requires entries != []
    ensures ValuesOf(entries) == ValuesOf(entries[..|entries| - 1]) + {entries[|entries| - 1].1}
  {
    var init := entries[..|entries| - 1];
    forall r | r in ValuesOf(entries) ensures r in ValuesOf(init) + {entries[|entries| - 1].1} {
      var i :| 0 <= i < |entries| && entries[i].1 == r;
      if i < |init| {
        assert init[i] == entries[i];
      }
    }
  }

  /** The values are distinct exactly when those before the last are, and the last is new. */
  lemma ValuesDistinctSnoc<H, R>(entries: seq<(H, R)>)
    requires entries != []
    ensures ValuesDistinct(entries) <==>
      ValuesDistinct(entries[..|entries| - 1]) && entries[|entries| - 1].1 !in ValuesOf(entries[..|entries| - 1])
  {
    var init := entries[..|entries| - 1];
    var last := |entries| - 1;
    if ValuesDistinct(entries) {
      forall i | 0 <= i < |init| ensures init[i].1 != entries[last].1 {
        assert init[i] == entries[i];
      }
      forall i, j | 0 <= i < j < |init| ensures init[i].1 != init[j].1 {
        assert init[i] == entries[i] && init[j] == entries[j];
      }
    }
    if ValuesDistinct(init) && entries[last].1 !in ValuesOf(init) {
      forall i, j | 0 <= i < j < |entries| ensures entries[i].1 != entries[j].1 {
        assert entries[i] == init[i];
        if j < last {
          assert entries[j] == init[j];
        }
      }
    }
  }

  /** The values of a sequence number at most its length, exactly when they are distinct. */
  lemma {:induction false} ValuesCount<H, R>(entries: seq<(H, R)>)
    ensures |ValuesOf(entries)| <= |entries|
    ensures |ValuesOf(entries)| == |entries| <==> ValuesDistinct(entries)
    decreases |entries|
  {
    if entries != [] {
      var init := entries[..|entries| - 1];
      ValuesCount(init);
      ValuesOfSnoc(entries);
      ValuesDistinctSnoc(entries);
    }
  }

  /**
   * The result is no larger than the source, and as large exactly when no
   * two HTTP methods share a router method.
   */
  lemma InverseSize<H, R>(entries: seq<(H, R)>)
    requires KeysDistinct(entries)
    ensures |RouterMethodToHTTPMethod(entries)| <= |MapOf(entries)|
    ensures |RouterMethodToHTTPMethod(entries)| == |MapOf(entries)| <==> ValuesDistinct(entries)
  {
    InverseKeys(entries);
    ValuesCount(entries);
    DistinctKeysCount(entries);
  }

  /** A `Map` built from pairs with distinct keys has one entry per pair. */
  lemma {:induction false} DistinctKeysCount<K, V>(pairs: seq<(K, V)>)
    requires KeysDistinct(pairs)
    ensures |MapOf(pairs)| == |pairs|
    decreases |pairs|
  {
    if pairs != [] {
      var init := pairs[..|pairs| - 1];
      var last := pairs[|pairs| - 1];
      assert KeysDistinct(init) by {
        forall i, j | 0 <= i < j < |init| ensures init[i].0 != init[j].0 {
          assert init[i] == pairs[i] && init[j] == pairs[j];
        }
      }
      DistinctKeysCount(init);
      MapOfKeys(init);
      forall i | 0 <= i < |init| ensures init[i].0 != last.0 {
        assert init[i] == pairs[i];
      }
    }
  }
}
