/**
 * A Python `dict` as the ingestion step uses it: assignment `d[k] = v` and
 * iteration over `d.items()`. Since Python 3.7 a dict remembers the order in
 * which its keys were first inserted; overwriting a key keeps its place.
 */
module PyDict {

  /** The entries of the dict, and its keys in first-insertion order. */
  datatype Dict<K(!new), V> = Dict(keys: seq<K>, entries: map<K, V>) {

    /** Every key is listed once, and exactly the keys of `entries` are listed. */
    ghost predicate Valid() {
      && (forall i, j :: 0 <= i < j < |keys| ==> keys[i] != keys[j])
      && (forall k :: k in entries <==> k in keys)
    }
  }

  /** `{}` */
  function Empty<K(!new), V>(): (d: Dict<K, V>)
    ensures d.Valid() && d.entries == map[]
  {
    Dict([], map[])
  }

  /** `d[k] = v`: the new value replaces any old one, a new key goes to the end
      of the order, an existing key keeps its place, and nothing is removed. */
  function SetItem<K(!new), V>(d: Dict<K, V>, k: K, v: V): (r: Dict<K, V>)
    requires d.Valid()
    ensures r.Valid()
    ensures r.entries == d.entries[k := v]
    ensures |d.keys| <= |r.keys| && r.keys[..|d.keys|] == d.keys
  {
    if k in d.entries then Dict(d.keys, d.entries[k := v])
    else Dict(d.keys + [k], d.entries[k := v])
  }

  /** Assigning one key twice into `{}` leaves that key alone, holding the
      second value. */
  lemma SetItemTwice<K(!new), V>(k: K, v1: V, v2: V)
    ensures SetItem(SetItem(Empty(), k, v1), k, v2) == Dict([k], map[k := v2])
  {
    var d1 := SetItem(Empty(), k, v1);
    assert d1 == Dict([k], map[k := v1]);
  }

  /** A sequence without repetitions has as many elements as its set. */
  lemma {:induction false} DistinctCard<K>(s: seq<K>)
    requires forall i, j :: 0 <= i < j < |s| ==> s[i] != s[j]
    ensures |set x | x in s| == |s|
    decreases |s|
  {
    if s != [] {
      var init := s[..|s| - 1];
      DistinctCard(init);
      var last := s[|s| - 1];
      assert (set x | x in s) == (set x | x in init) + {last};
      assert last !in (set x | x in init);
    }
  }

  /** `d.items()`: one pair per entry, in first-insertion order, each key with
      its value. */
  function Items<K(!new), V>(d: Dict<K, V>): (items: seq<(K, V)>)
    requires d.Valid()
    ensures |items| == |d.keys| == |d.entries|
    ensures forall i :: 0 <= i < |items| ==> items[i].0 == d.keys[i] && items[i].1 == d.entries[d.keys[i]]
  {
    DistinctCard(d.keys);
    assert d.entries.Keys == set x | x in d.keys;
    seq(|d.keys|, i requires 0 <= i < |d.keys| => (d.keys[i], d.entries[d.keys[i]]))
  }

  /** Each key appears once among the items, and exactly the keys of the dict
      appear. */
  lemma ItemsKeys<K(!new), V>(d: Dict<K, V>)
    requires d.Valid()
    ensures var items := Items(d);
            && (forall i, j :: 0 <= i < j < |items| ==> items[i].0 != items[j].0)
            && (forall k :: k in d.entries <==> exists i :: 0 <= i < |items| && items[i].0 == k)
  {
    var items := Items(d);
    forall k | k in d.entries ensures exists i :: 0 <= i < |items| && items[i].0 == k {
      var i :| 0 <= i < |d.keys| && d.keys[i] == k;
      assert items[i].0 == k;
    }
  }
}
