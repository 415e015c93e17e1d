/**
 * PHP arrays with string keys: a map whose keys remember the order in which
 * they were first assigned. Writing `$a[$k] = $v` overwrites the value of a
 * key already present in place and appends a new key at the end.
 */
module OrderedMaps {
  import opened KeyLists

  datatype OMap<V> = OMap(keys: seq<string>, entries: map<string, V>) {

    /** The key order lists every key of the map exactly once. */
    ghost predicate Valid() {
      Distinct(keys) && forall k :: k in entries <==> k in keys
    }
  }

  /** The empty array `[]`. */
  function Empty<V>(): (m: OMap<V>)
    ensures m.Valid() && m.keys == [] && m.entries == map[]
  {
    OMap([], map[])
  }

  /** `$a[$k] = $v`. */
  function Put<V>(m: OMap<V>, k: string, v: V): (r: OMap<V>)
    requires m.Valid()
    ensures r.Valid()
  {
    if k in m.entries then OMap(m.keys, m.entries[k := v])
    else OMap(m.keys + [k], m.entries[k := v])
  }

  /**
   * `foreach ($ks as $k) { $a[$k] = $src[$k]; }`: the values of `src` for
   * the keys `ks` written over `m`. Existing keys keep their places and new
   * keys are appended in the order in which `ks` first names them.
   */
  function PutAll<V>(m: OMap<V>, ks: seq<string>, src: map<string, V>): (r: OMap<V>)
    requires m.Valid()
    requires forall k :: k in ks ==> k in src
    ensures r.Valid()
    ensures r.entries == m.entries + map k | k in ks :: src[k]
    ensures r.keys == Dedup(m.keys + ks)
    decreases |ks|
  {
    if ks == [] then
      assert m.keys + ks == m.keys;
      DedupOfDistinct(m.keys);
      m
    else
      var init := ks[..|ks| - 1];
      var k := ks[|ks| - 1];
      var p := PutAll(m, init, src);
      PutAllEntriesStep(m, ks, src);
      PutAllKeysStep(m.keys, ks);
      Put(p, k, src[k])
  }

  /** One more assignment extends the written values as `PutAll` promises. */
  lemma PutAllEntriesStep<V>(m: OMap<V>, ks: seq<string>, src: map<string, V>)
    requires ks != []
    requires forall k :: k in ks ==> k in src
    ensures m.entries + (map k | k in ks :: src[k])
        == (m.entries + map k | k in ks[..|ks| - 1] :: src[k])[ks[|ks| - 1] := src[ks[|ks| - 1]]]
  {
    var init, last := ks[..|ks| - 1], ks[|ks| - 1];
    assert ks == init + [last];
    var all, before := map k | k in ks :: src[k], map k | k in init :: src[k];
    assert all == before[last := src[last]];
  }

  /** One more assignment extends the key order as `PutAll` promises. */
  lemma PutAllKeysStep(keys: seq<string>, ks: seq<string>)
    requires ks != []
    ensures var before := Dedup(keys + ks[..|ks| - 1]);
      Dedup(keys + ks) == if ks[|ks| - 1] in before then before else before + [ks[|ks| - 1]]
  {
    assert (keys + ks)[..|keys + ks| - 1] == keys + ks[..|ks| - 1];
  }
}
