/** Insertion-ordered maps, the model of java.util.LinkedHashMap: iteration
    visits keys in the order they were first put, and putting an existing key
    replaces its value without moving it.  A map from keys to statement lists
    is a `Buckets` map. */
module OrderedMaps {
  import opened Wrappers

  datatype OMap<K, V> = OMap(keys: seq<K>, entries: map<K, V>)

  type Buckets<K, V> = OMap<K, seq<V>>

  /** No element occurs twice. */
  predicate Distinct<K(==)>(s: seq<K>) {
    |s| == 0 || (s[0] !in s[1..] && Distinct(s[1..]))
  }

  lemma {:induction false} DistinctSnoc<K>(s: seq<K>, k: K)
    requires Distinct(s) && k !in s
    ensures Distinct(s + [k])
  {
    if |s| > 0 {
      assert (s + [k])[1..] == s[1..] + [k];
      DistinctSnoc(s[1..], k);
    }
  }

  lemma {:induction false} DistinctConcat<K>(xs: seq<K>, ys: seq<K>)
    requires Distinct(xs) && Distinct(ys)
    requires forall k :: k in xs ==> k !in ys
    ensures Distinct(xs + ys)
  {
    if |xs| == 0 {
      assert xs + ys == ys;
    } else {
      assert (xs + ys)[1..] == xs[1..] + ys;
      DistinctConcat(xs[1..], ys);
    }
  }

  lemma TailOfConcat<K>(xs: seq<K>, ys: seq<K>)
    requires |xs| > 0
    ensures (xs + ys)[0] == xs[0] && (xs + ys)[1..] == xs[1..] + ys
  {
  }

  /** The key sequence lists every key of the map exactly once. */
  predicate Valid<K(==,!new), V>(m: OMap<K, V>) {
    && Distinct(m.keys)
    && (forall k :: k in m.entries ==> k in m.keys)
    && (forall k :: k in m.keys ==> k in m.entries)
  }

  function Empty<K(==,!new), V>(): (r: OMap<K, V>)
    ensures Valid(r) && |r.keys| == 0 && r.entries == map[]
  {
    OMap([], map[])
  }

  function Get<K(==,!new), V>(m: OMap<K, V>, k: K): (r: Option<V>)
    ensures r.Some? <==> k in m.entries
    ensures r.Some? ==> r.value == m.entries[k]
  {
    if k in m.entries then Some(m.entries[k]) else None
  }

  /** LinkedHashMap.put: the value is replaced in place, a new key goes last. */
  function Put<K(==,!new), V>(m: OMap<K, V>, k: K, v: V): (r: OMap<K, V>)
    requires Valid(m)
    ensures Valid(r)
    ensures r.entries == m.entries[k := v]
    ensures k in m.entries ==> r.keys == m.keys
    ensures k !in m.entries ==> r.keys == m.keys + [k]
  {
    if k in m.entries then OMap(m.keys, m.entries[k := v])
    else
      DistinctSnoc(m.keys, k);
      OMap(m.keys + [k], m.entries[k := v])
  }

  /** The keys of `ks` that are not in `present`, in their order. */
  function Fresh<K(==,!new)>(ks: seq<K>, present: set<K>): (r: seq<K>)
    ensures forall k :: k in r <==> k in ks && k !in present
    ensures |r| <= |ks|
  {
    if |ks| == 0 then []
    else if ks[0] in present then Fresh(ks[1..], present)
    else [ks[0]] + Fresh(ks[1..], present)
  }

  lemma {:induction false} FreshDistinct<K(!new)>(ks: seq<K>, present: set<K>)
    requires Distinct(ks)
    ensures Distinct(Fresh(ks, present))
  {
    if |ks| > 0 {
      FreshDistinct(ks[1..], present);
    }
  }

  lemma {:induction false} FreshAppend<K(!new)>(xs: seq<K>, ys: seq<K>, present: set<K>)
    ensures Fresh(xs + ys, present) == Fresh(xs, present) + Fresh(ys, present)
  {
    if |xs| > 0 {
      TailOfConcat(xs, ys);
      FreshAppend(xs[1..], ys, present);
      if xs[0] !in present {
        AppendAssociative([xs[0]], Fresh(xs[1..], present), Fresh(ys, present));
      }
    } else {
      assert xs + ys == ys;
    }
  }

  lemma {:induction false} FreshFresh<K(!new)>(ks: seq<K>, inner: set<K>, outer: set<K>)
    ensures Fresh(Fresh(ks, inner), outer) == Fresh(ks, inner + outer)
  {
    if |ks| > 0 {
      FreshFresh(ks[1..], inner, outer);
    }
  }

  // ----- statement buckets -----

  /** The list stored under `k`, the empty list when there is none. */
  function Lookup<K(==,!new), V>(b: Buckets<K, V>, k: K): (r: seq<V>)
    ensures k !in b.entries ==> r == []
    ensures k in b.entries ==> r == b.entries[k]
  {
    if k in b.entries then b.entries[k] else []
  }

  /** Appends `v` at the end of the list under `k`, creating the list if the
      key is new; no other list changes. */
  function Append<K(==,!new), V>(b: Buckets<K, V>, k: K, v: V): (r: Buckets<K, V>)
    requires Valid(b)
    ensures Valid(r)
    ensures Lookup(r, k) == Lookup(b, k) + [v]
    ensures forall j :: j != k ==> Lookup(r, j) == Lookup(b, j)
    ensures forall j :: j in r.entries <==> j in b.entries || j == k
    ensures r.keys == b.keys + Fresh([k], b.entries.Keys)
  {
    Put(b, k, Lookup(b, k) + [v])
  }

  /** The loop of VHDLContext.mergeListMap over the keys `ks` of `b`: a key
      missing from the receiver is created, then `b`'s list is appended. */
  function MergeKeys<K(==,!new), V>(a: Buckets<K, V>, b: Buckets<K, V>, ks: seq<K>): (r: Buckets<K, V>)
    requires Valid(a)
    requires forall k :: k in ks ==> k in b.entries
    ensures Valid(r)
    decreases |ks|
  {
    if |ks| == 0 then a
    else MergeKeys(Put(a, ks[0], Lookup(a, ks[0]) + b.entries[ks[0]]), b, ks[1..])
  }

  /** One step of the key bookkeeping: the first key is either already
      present, or it goes last and is then present for the rest. */
  lemma FreshStep<K(!new)>(before: seq<K>, after: seq<K>, P: set<K>, P': set<K>, ks: seq<K>)
    requires |ks| > 0 && ks[0] !in ks[1..] && P' == P + {ks[0]}
    requires after == (if ks[0] in P then before else before + [ks[0]])
    ensures after + Fresh(ks[1..], P') == before + Fresh(ks, P)
  {
    if ks[0] in P {
      assert P' == P;
    } else {
      FreshUnaffected(ks[1..], P, ks[0]);
      SnocThenConcat(before, ks[0], Fresh(ks[1..], P));
    }
  }

  lemma SnocThenConcat<K>(before: seq<K>, k: K, rest: seq<K>)
    ensures (before + [k]) + rest == before + ([k] + rest)
  {
  }

  lemma {:induction false} MergeKeysLists<K(!new), V>(a: Buckets<K, V>, b: Buckets<K, V>, ks: seq<K>)
    requires Valid(a) && Distinct(ks)
    requires forall k :: k in ks ==> k in b.entries
    ensures forall k :: Lookup(MergeKeys(a, b, ks), k) == Lookup(a, k) + (if k in ks then b.entries[k] else [])
    decreases |ks|
  {
    if |ks| > 0 {
      var k0 := ks[0];
      var a' := Put(a, k0, Lookup(a, k0) + b.entries[k0]);
      MergeKeysLists(a', b, ks[1..]);
      assert MergeKeys(a, b, ks) == MergeKeys(a', b, ks[1..]);
      forall k ensures Lookup(MergeKeys(a, b, ks), k) == Lookup(a, k) + (if k in ks then b.entries[k] else []) {
        if k == k0 {
          assert k !in ks[1..];
        } else {
          assert k in ks <==> k in ks[1..];
        }
      }
    }
  }

  lemma {:induction false} MergeKeysDomain<K(!new), V>(a: Buckets<K, V>, b: Buckets<K, V>, ks: seq<K>)
    requires Valid(a)
    requires forall k :: k in ks ==> k in b.entries
    ensures forall k :: k in MergeKeys(a, b, ks).entries <==> k in a.entries || k in ks
    decreases |ks|
  {
    if |ks| > 0 {
      var a' := Put(a, ks[0], Lookup(a, ks[0]) + b.entries[ks[0]]);
      MergeKeysDomain(a', b, ks[1..]);
      assert MergeKeys(a, b, ks) == MergeKeys(a', b, ks[1..]);
    }
  }

  lemma {:induction false} MergeKeysOrder<K(!new), V>(a: Buckets<K, V>, b: Buckets<K, V>, ks: seq<K>)
    requires Valid(a) && Distinct(ks)
    requires forall k :: k in ks ==> k in b.entries
    ensures MergeKeys(a, b, ks).keys == a.keys + Fresh(ks, a.entries.Keys)
    decreases |ks|
  {
    if |ks| == 0 {
      assert a.keys + [] == a.keys;
    } else {
      var a' := Put(a, ks[0], Lookup(a, ks[0]) + b.entries[ks[0]]);
      MergeKeysOrder(a', b, ks[1..]);
      assert MergeKeys(a, b, ks) == MergeKeys(a', b, ks[1..]);
      FreshStep(a.keys, a'.keys, a.entries.Keys, a'.entries.Keys, ks);
    }
  }

  lemma {:induction false} FreshUnaffected<K(!new)>(ks: seq<K>, present: set<K>, k0: K)
    requires k0 !in ks
    ensures Fresh(ks, present + {k0}) == Fresh(ks, present)
  {
    if |ks| > 0 {
      FreshUnaffected(ks[1..], present, k0);
    }
  }

  /** VHDLContext.mergeListMap: every list becomes the receiver's list
      followed by the other map's list; keys only the other map has are
      created after the receiver's keys, in the other map's order. */
  function Merge<K(==,!new), V>(a: Buckets<K, V>, b: Buckets<K, V>): (r: Buckets<K, V>)
    requires Valid(a) && Valid(b)
    ensures Valid(r)
    ensures forall k :: Lookup(r, k) == Lookup(a, k) + Lookup(b, k)
  {
    MergeKeysLists(a, b, b.keys);
    MergeKeys(a, b, b.keys)
  }

  /** The keys of a merge: those of either map, the receiver's first and
      then the other map's new ones in its order. */
  lemma MergeShape<K(!new), V>(a: Buckets<K, V>, b: Buckets<K, V>)
    requires Valid(a) && Valid(b)
    ensures Merge(a, b).entries.Keys == a.entries.Keys + b.entries.Keys
    ensures Merge(a, b).keys == a.keys + Fresh(b.keys, a.entries.Keys)
  {
    MergeKeysDomain(a, b, b.keys);
    assert forall k :: k in b.keys <==> k in b.entries;
    MergeKeysOrder(a, b, b.keys);
  }

  /** Two valid bucket maps with the same keys in the same order and the same
      lists are equal. */
  lemma BucketsExt<K(!new), V>(x: Buckets<K, V>, y: Buckets<K, V>)
    requires Valid(x) && Valid(y)
    requires x.keys == y.keys
    requires forall k :: Lookup(x, k) == Lookup(y, k)
    ensures x == y
  {
    assert x.entries.Keys == y.entries.Keys;
    forall k | k in x.entries ensures x.entries[k] == y.entries[k] {
      assert Lookup(x, k) == Lookup(y, k);
    }
  }

  lemma FreshOrderAssociative<K(!new)>(ak: seq<K>, bk: seq<K>, ck: seq<K>, A: set<K>, B: set<K>)
    ensures ak + Fresh(bk, A) + Fresh(ck, A + B) == ak + Fresh(bk + Fresh(ck, B), A)
  {
    FreshAppend(bk, Fresh(ck, B), A);
    FreshFresh(ck, B, A);
    assert B + A == A + B;
  }

  lemma MergeAssociativeKeys<K(!new), V>(a: Buckets<K, V>, b: Buckets<K, V>, c: Buckets<K, V>)
    requires Valid(a) && Valid(b) && Valid(c)
    ensures Merge(Merge(a, b), c).keys == Merge(a, Merge(b, c)).keys
  {
    var ab := Merge(a, b);
    var bc := Merge(b, c);
    MergeShape(a, b);
    MergeShape(b, c);
    MergeShape(ab, c);
    MergeShape(a, bc);
    FreshOrderAssociative(a.keys, b.keys, c.keys, a.entries.Keys, b.entries.Keys);
  }

  lemma MergeAssociativeAt<K(!new), V>(a: Buckets<K, V>, b: Buckets<K, V>, c: Buckets<K, V>, k: K)
    requires Valid(a) && Valid(b) && Valid(c)
    ensures Lookup(Merge(Merge(a, b), c), k) == Lookup(Merge(a, Merge(b, c)), k)
  {
    var x, y, z := Lookup(a, k), Lookup(b, k), Lookup(c, k);
    var ab, bc := Merge(a, b), Merge(b, c);
    assert Lookup(Merge(ab, c), k) == Lookup(ab, k) + z;
    assert Lookup(Merge(a, bc), k) == x + Lookup(bc, k);
    AppendAssociative(x, y, z);
  }

  lemma AppendAssociative<T>(x: seq<T>, y: seq<T>, z: seq<T>)
    ensures (x + y) + z == x + (y + z)
  {
  }

  lemma MergeAssociativeLists<K(!new), V>(a: Buckets<K, V>, b: Buckets<K, V>, c: Buckets<K, V>)
    requires Valid(a) && Valid(b) && Valid(c)
    ensures forall k :: Lookup(Merge(Merge(a, b), c), k) == Lookup(Merge(a, Merge(b, c)), k)
  {
    forall k ensures Lookup(Merge(Merge(a, b), c), k) == Lookup(Merge(a, Merge(b, c)), k) {
      MergeAssociativeAt(a, b, c, k);
    }
  }

  /** Merging bucket maps is associative, lists and key order alike. */
  lemma MergeAssociative<K(!new), V>(a: Buckets<K, V>, b: Buckets<K, V>, c: Buckets<K, V>)
    requires Valid(a) && Valid(b) && Valid(c)
    ensures Merge(Merge(a, b), c) == Merge(a, Merge(b, c))
  {
    MergeAssociativeKeys(a, b, c);
    MergeAssociativeLists(a, b, c);
    BucketsExt(Merge(Merge(a, b), c), Merge(a, Merge(b, c)));
  }

  /** Merging an empty map changes nothing, on either side. */
  lemma MergeEmpty<K(!new), V>(a: Buckets<K, V>)
    requires Valid(a)
    ensures Merge(a, Empty()) == a
    ensures Merge(Empty(), a) == a
  {
    var e: Buckets<K, V> := Empty();
    var r1 := Merge(a, e);
    MergeShape(a, e);
    assert r1.keys == a.keys + Fresh(e.keys, a.entries.Keys);
    assert r1.keys == a.keys;
    forall k ensures Lookup(r1, k) == Lookup(a, k) {
      assert Lookup(r1, k) == Lookup(a, k) + [];
    }
    BucketsExt(r1, a);
    var r2 := Merge(e, a);
    MergeShape(e, a);
    FreshAll(a.keys);
    assert e.entries.Keys == {};
    assert r2.keys == [] + a.keys;
    forall k ensures Lookup(r2, k) == Lookup(a, k) {
      assert Lookup(r2, k) == [] + Lookup(a, k);
    }
    BucketsExt(r2, a);
  }

  lemma {:induction false} FreshAll<K(!new)>(ks: seq<K>)
    ensures Fresh(ks, {}) == ks
  {
    if |ks| > 0 {
      FreshAll(ks[1..]);
    }
  }

  // ----- maps of single values -----

  /** The loop of Map.putAll over the keys `ks` of `b`. */
  function PutKeys<K(==,!new), V>(a: OMap<K, V>, b: OMap<K, V>, ks: seq<K>): (r: OMap<K, V>)
    requires Valid(a)
    requires forall k :: k in ks ==> k in b.entries
    ensures Valid(r)
    decreases |ks|
  {
    if |ks| == 0 then a else PutKeys(Put(a, ks[0], b.entries[ks[0]]), b, ks[1..])
  }

  lemma PutKeysSpec<K(!new), V>(a: OMap<K, V>, b: OMap<K, V>, ks: seq<K>)
    requires Valid(a) && Distinct(ks)
    requires forall k :: k in ks ==> k in b.entries
    ensures forall k :: Get(PutKeys(a, b, ks), k) == if k in ks then Some(b.entries[k]) else Get(a, k)
    ensures PutKeys(a, b, ks).keys == a.keys + Fresh(ks, a.entries.Keys)
  {
    forall k ensures Get(PutKeys(a, b, ks), k) == if k in ks then Some(b.entries[k]) else Get(a, k) {
      PutKeysGet(a, b, ks, k);
    }
    PutKeysKeys(a, b, ks);
  }

  lemma {:induction false} PutKeysGet<K(!new), V>(a: OMap<K, V>, b: OMap<K, V>, ks: seq<K>, k: K)
    requires Valid(a) && Distinct(ks)
    requires forall k :: k in ks ==> k in b.entries
    ensures Get(PutKeys(a, b, ks), k) == if k in ks then Some(b.entries[k]) else Get(a, k)
    decreases |ks|
  {
    if |ks| > 0 {
      var k0 := ks[0];
      var a' := Put(a, k0, b.entries[k0]);
      PutKeysGet(a', b, ks[1..], k);
      assert PutKeys(a, b, ks) == PutKeys(a', b, ks[1..]);
      assert k in ks <==> k == k0 || k in ks[1..];
      if k == k0 {
        assert k !in ks[1..];
      }
    }
  }

  lemma {:induction false} PutKeysKeys<K(!new), V>(a: OMap<K, V>, b: OMap<K, V>, ks: seq<K>)
    requires Valid(a) && Distinct(ks)
    requires forall k :: k in ks ==> k in b.entries
    ensures PutKeys(a, b, ks).keys == a.keys + Fresh(ks, a.entries.Keys)
    decreases |ks|
  {
    if |ks| == 0 {
      assert a.keys + [] == a.keys;
    } else {
      var k0 := ks[0];
      var a' := Put(a, k0, b.entries[k0]);
      PutKeysKeys(a', b, ks[1..]);
      assert PutKeys(a, b, ks) == PutKeys(a', b, ks[1..]);
      assert a'.entries.Keys == a.entries.Keys + {k0};
      FreshStep(a.keys, a'.keys, a.entries.Keys, a'.entries.Keys, ks);
    }
  }

  /** Map.putAll: the other map's values win; its new keys go last, in its
      order. */
  function PutAll<K(==,!new), V>(a: OMap<K, V>, b: OMap<K, V>): (r: OMap<K, V>)
    requires Valid(a) && Valid(b)
    ensures Valid(r)
    ensures forall k :: Get(r, k) == if k in b.entries then Some(b.entries[k]) else Get(a, k)
    ensures r.keys == a.keys + Fresh(b.keys, a.entries.Keys)
  {
    PutKeysSpec(a, b, b.keys);
    PutKeys(a, b, b.keys)
  }

  /** Two valid maps with the same keys in the same order and the same
      values are equal. */
  lemma OMapExt<K(!new), V>(x: OMap<K, V>, y: OMap<K, V>)
    requires Valid(x) && Valid(y)
    requires x.keys == y.keys
    requires forall k :: Get(x, k) == Get(y, k)
    ensures x == y
  {
    assert x.entries.Keys == y.entries.Keys;
    forall k | k in x.entries ensures x.entries[k] == y.entries[k] {
      assert Get(x, k) == Get(y, k);
    }
  }

  /** The keys of Map.putAll's result: those of either map. */
  lemma PutAllDomain<K(!new), V>(a: OMap<K, V>, b: OMap<K, V>)
    requires Valid(a) && Valid(b)
    ensures PutAll(a, b).entries.Keys == a.entries.Keys + b.entries.Keys
  {
    var r := PutAll(a, b);
    forall k ensures k in r.entries <==> k in a.entries || k in b.entries {
      assert Get(r, k).Some? <==> k in r.entries;
    }
  }

  lemma PutAllAssociativeKeys<K(!new), V>(a: OMap<K, V>, b: OMap<K, V>, c: OMap<K, V>)
    requires Valid(a) && Valid(b) && Valid(c)
    ensures PutAll(PutAll(a, b), c).keys == PutAll(a, PutAll(b, c)).keys
  {
    PutAllDomain(a, b);
    FreshOrderAssociative(a.keys, b.keys, c.keys, a.entries.Keys, b.entries.Keys);
  }

  lemma PutAllAssociativeAt<K(!new), V>(a: OMap<K, V>, b: OMap<K, V>, c: OMap<K, V>, k: K)
    requires Valid(a) && Valid(b) && Valid(c)
    ensures Get(PutAll(PutAll(a, b), c), k) == Get(PutAll(a, PutAll(b, c)), k)
  {
    var bc := PutAll(b, c);
    assert Get(bc, k) == if k in c.entries then Some(c.entries[k]) else Get(b, k);
    assert Get(bc, k).Some? <==> k in bc.entries;
  }

  /** Map.putAll is associative: later maps win, and new keys are appended
      in first-seen order either way. */
  lemma PutAllAssociative<K(!new), V>(a: OMap<K, V>, b: OMap<K, V>, c: OMap<K, V>)
    requires Valid(a) && Valid(b) && Valid(c)
    ensures PutAll(PutAll(a, b), c) == PutAll(a, PutAll(b, c))
  {
    PutAllAssociativeKeys(a, b, c);
    forall k ensures Get(PutAll(PutAll(a, b), c), k) == Get(PutAll(a, PutAll(b, c)), k) {
      PutAllAssociativeAt(a, b, c, k);
    }
    OMapExt(PutAll(PutAll(a, b), c), PutAll(a, PutAll(b, c)));
  }
}
