/**
 * An insertion-ordered dictionary keyed by instance id, the shape of the
 * `OrderedDict[str, ...]` collections of the program: `keys` lists every key
 * once, in the order it was first inserted, and `entries` holds the values.
 */
module OrderedMaps {

  datatype OrderedMap<V> = OrderedMap(keys: seq<string>, entries: map<string, V>)

  /** Every key is listed exactly once, and the listed keys are the map's keys. */
  ghost predicate Valid<V>(m: OrderedMap<V>)
  {
    && (forall i, j :: 0 <= i < j < |m.keys| ==> m.keys[i] != m.keys[j])
    && (forall k :: k in m.entries <==> k in m.keys)
  }

  /** A fresh `OrderedDict()`. */
  function Empty<V>(): (r: OrderedMap<V>)
    ensures Valid(r) && r.keys == []
  {
    OrderedMap([], map[])
  }

  /**
   * `d[k] = v` on an ordered dictionary: the value is replaced, an existing
   * key keeps its position and a new key goes to the end.
   */
  function Put<V>(m: OrderedMap<V>, k: string, v: V): (r: OrderedMap<V>)
    requires Valid(m)
    ensures Valid(r)
    ensures r.entries == m.entries[k := v]
    ensures k in m.entries ==> r.keys == m.keys
    ensures k !in m.entries ==> r.keys == m.keys + [k]
  {
    if k in m.entries then OrderedMap(m.keys, m.entries[k := v])
    else OrderedMap(m.keys + [k], m.entries[k := v])
  }

  /** The assignments `d[k] = v` for each pair of `items`, in order. */
  function PutAll<V>(m: OrderedMap<V>, items: seq<(string, V)>): (r: OrderedMap<V>)
    requires Valid(m)
    ensures Valid(r)
    decreases |items|
  {
    if items == [] then m
    else
      var last := items[|items| - 1];
      Put(PutAll(m, items[..|items| - 1]), last.0, last.1)
  }

  /** The dictionary the pairs of `items` describe when a later pair overrides an earlier one. */
  function LastWins<V>(items: seq<(string, V)>): (r: map<string, V>)
    ensures forall k :: k in r <==> exists i :: 0 <= i < |items| && items[i].0 == k
    decreases |items|
  {
    if items == [] then map[]
    else
      var init := items[..|items| - 1];
      var last := items[|items| - 1];
      var r := LastWins(init)[last.0 := last.1];
      assert forall i :: 0 <= i < |init| ==> init[i] == items[i];
      r
  }

  /** The pairs `(key, value)` of an ordered dictionary, in key order (`d.items()`). */
  function Items<V>(m: OrderedMap<V>): (items: seq<(string, V)>)
    requires Valid(m)
    ensures |items| == |m.keys|
  {
    ItemsOf(m.keys, m.entries)
  }

  function ItemsOf<V>(keys: seq<string>, entries: map<string, V>): (items: seq<(string, V)>)
    requires forall k :: k in keys ==> k in entries
    ensures |items| == |keys|
    decreases |keys|
  {
    if keys == [] then []
    else
      var last := keys[|keys| - 1];
      ItemsOf(keys[..|keys| - 1], entries) + [(last, entries[last])]
  }

  lemma {:induction false} ItemsOfAt<V>(keys: seq<string>, entries: map<string, V>, i: nat)
    requires forall k :: k in keys ==> k in entries
    requires i < |keys|
    ensures ItemsOf(keys, entries)[i] == (keys[i], entries[keys[i]])
    decreases |keys|
  {
    if i < |keys| - 1 {
      ItemsOfAt(keys[..|keys| - 1], entries, i);
    }
  }

  /**
   * The reconciliation merge: every entry of `n`, in `n`'s order, is written
   * into `m`.
   */
  function Merge<V>(m: OrderedMap<V>, n: OrderedMap<V>): (r: OrderedMap<V>)
    requires Valid(m) && Valid(n)
    ensures Valid(r)
  {
    PutAll(m, Items(n))
  }

  /** A run of assignments leaves the old values where no pair overrides them and the last pair's value where one does. */
  lemma {:induction false} PutAllEntries<V>(m: OrderedMap<V>, items: seq<(string, V)>)
    requires Valid(m)
    ensures PutAll(m, items).entries == m.entries + LastWins(items)
    decreases |items|
  {
    if items != [] {
      var init := items[..|items| - 1];
      var last := items[|items| - 1];
      PutAllEntries(m, init);
      assert LastWins(items) == LastWins(init)[last.0 := last.1];
      UnionUpdate(m.entries, LastWins(init), last.0, last.1);
    }
  }

  /** Updating a union is updating its right operand. */
  lemma UnionUpdate<V>(a: map<string, V>, b: map<string, V>, k: string, v: V)
    ensures (a + b)[k := v] == a + b[k := v]
  {
    assert ((a + b)[k := v]).Keys == (a + b[k := v]).Keys;
  }

  /** A run of assignments never moves or removes a key that was already present. */
  lemma {:induction false} PutAllKeepsOrder<V>(m: OrderedMap<V>, items: seq<(string, V)>)
    requires Valid(m)
    ensures |m.keys| <= |PutAll(m, items).keys|
    ensures PutAll(m, items).keys[..|m.keys|] == m.keys
    decreases |items|
  {
    if items != [] {
      var init := items[..|items| - 1];
      PutAllKeepsOrder(m, init);
      var before := PutAll(m, init).keys;
      assert (before + [items[|items| - 1].0])[..|m.keys|] == before[..|m.keys|];
    }
  }

  /** A run of assignments to keys that are all present leaves the key order as it was. */
  lemma {:induction false} PutAllPresentKeys<V>(m: OrderedMap<V>, items: seq<(string, V)>)
    requires Valid(m)
    requires forall i :: 0 <= i < |items| ==> items[i].0 in m.entries
    ensures PutAll(m, items).keys == m.keys
    decreases |items|
  {
    if items != [] {
      var init := items[..|items| - 1];
      assert forall i :: 0 <= i < |init| ==> init[i] == items[i];
      PutAllPresentKeys(m, init);
      PutAllEntries(m, init);
    }
  }

  /** The value a key ends up with is the one of the last pair that names it. */
  lemma {:induction false} LastWinsAt<V>(items: seq<(string, V)>, i: nat)
    requires i < |items|
    requires forall j :: i < j < |items| ==> items[j].0 != items[i].0
    ensures items[i].0 in LastWins(items) && LastWins(items)[items[i].0] == items[i].1
    decreases |items|
  {
    if i < |items| - 1 {
      var init := items[..|items| - 1];
      assert init[i] == items[i];
      LastWinsAt(init, i);
    }
  }

  /** Replaying the pairs of some keys gives those keys' entries. */
  lemma {:induction false} ItemsOfLastWins<V>(keys: seq<string>, entries: map<string, V>)
    requires forall k :: k in keys ==> k in entries
    ensures LastWins(ItemsOf(keys, entries)) == map k | k in keys :: entries[k]
    decreases |keys|
  {
    if keys != [] {
      var init := keys[..|keys| - 1];
      var last := keys[|keys| - 1];
      var items := ItemsOf(keys, entries);
      assert items[..|items| - 1] == ItemsOf(init, entries);
      ItemsOfLastWins(init, entries);
      var lhs := LastWins(items);
      var rhs := map k | k in keys :: entries[k];
      assert lhs == (map k | k in init :: entries[k])[last := entries[last]];
      assert forall k :: k in keys <==> k in init || k == last;
      assert lhs.Keys == rhs.Keys;
    }
  }

  /** Replaying an ordered dictionary's own items gives back its entries. */
  lemma ItemsLastWins<V>(m: OrderedMap<V>)
    requires Valid(m)
    ensures LastWins(Items(m)) == m.entries
  {
    ItemsOfLastWins(m.keys, m.entries);
    assert (map k | k in m.keys :: m.entries[k]).Keys == m.entries.Keys;
  }

  /**
   * What a merge writes: no key is removed, every key of `n` carries `n`'s
   * value, and every other key keeps its old value.
   */
  lemma MergeEntries<V>(m: OrderedMap<V>, n: OrderedMap<V>)
    requires Valid(m) && Valid(n)
    ensures forall k :: k in Merge(m, n).entries <==> k in m.entries || k in n.entries
    ensures forall k :: k in n.entries ==> Merge(m, n).entries[k] == n.entries[k]
    ensures forall k :: k in m.entries && k !in n.entries ==> Merge(m, n).entries[k] == m.entries[k]
  {
    PutAllEntries(m, Items(n));
    ItemsLastWins(n);
  }

  /**
   * The order a merge leaves: the old keys keep their positions, and behind
   * them come only keys of `n` that were not there before.
   */
  lemma MergeOrder<V>(m: OrderedMap<V>, n: OrderedMap<V>)
    requires Valid(m) && Valid(n)
    ensures |m.keys| <= |Merge(m, n).keys|
    ensures Merge(m, n).keys[..|m.keys|] == m.keys
    ensures forall i :: |m.keys| <= i < |Merge(m, n).keys| ==>
              Merge(m, n).keys[i] !in m.entries && Merge(m, n).keys[i] in n.entries
  {
    var r := Merge(m, n);
    PutAllKeepsOrder(m, Items(n));
    MergeEntries(m, n);
    forall i | |m.keys| <= i < |r.keys|
      ensures r.keys[i] !in m.entries && r.keys[i] in n.entries
    {
      forall j | 0 <= j < |m.keys| ensures r.keys[i] != m.keys[j] {
        assert r.keys[j] == m.keys[j];
      }
    }
  }

  /** Merging the same answer twice gives the same dictionary as merging it once. */
  lemma MergeIdempotent<V>(m: OrderedMap<V>, n: OrderedMap<V>)
    requires Valid(m) && Valid(n)
    ensures Merge(Merge(m, n), n) == Merge(m, n)
  {
    var once := Merge(m, n);
    var items := Items(n);
    assert PutAll(once, items).entries == once.entries by {
      ItemsLastWins(n);
      PutAllEntries(m, items);
      PutAllEntries(once, items);
      assert (once.entries + n.entries).Keys == once.entries.Keys;
    }
    assert PutAll(once, items).keys == once.keys by {
      ItemsLastWins(n);
      PutAllEntries(m, items);
      forall i | 0 <= i < |items| ensures items[i].0 in once.entries {
        ItemsOfAt(n.keys, n.entries, i);
      }
      PutAllPresentKeys(once, items);
    }
  }
}
