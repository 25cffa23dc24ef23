/** An ECMAScript `Map` whose keys are integers: the entries, together with
    the order in which the present keys were inserted. `set` on a present key
    replaces the value and keeps the key's position, `set` on a new key
    appends it, `delete` removes just that key, and `values()` iterates in
    key-insertion order. */
module OrderedMaps {
  import opened Wrappers

  datatype OrderedMap<V> = OrderedMap(keys: seq<int>, entries: map<int, V>)

  ghost predicate Distinct(s: seq<int>) {
    forall i, j :: 0 <= i < j < |s| ==> s[i] != s[j]
  }

  /** Every key appears once in the order, and exactly the stored keys do. */
  ghost predicate WellFormed<V>(m: OrderedMap<V>) {
    && Distinct(m.keys)
    && (forall k :: k in m.entries <==> k in m.keys)
  }

  /** `new Map()` */
  function Empty<V>(): (m: OrderedMap<V>)
    ensures WellFormed(m)
    ensures forall k :: Get(m, k) == None
    ensures |Values(m)| == 0
  {
    OrderedMap([], map[])
  }

  /** `m.get(k)`: the value, or `undefined` as None. */
  function Get<V>(m: OrderedMap<V>, k: int): Option<V> {
    if k in m.entries then Some(m.entries[k]) else None
  }

  /** `m.set(k, v)` */
  function Set<V>(m: OrderedMap<V>, k: int, v: V): (r: OrderedMap<V>)
    ensures WellFormed(m) ==> WellFormed(r)
    ensures Get(r, k) == Some(v)
    ensures forall j :: j != k ==> Get(r, j) == Get(m, j)
    ensures k in m.entries ==> r.keys == m.keys
    ensures k !in m.entries ==> r.keys == m.keys + [k]
  {
    OrderedMap(if k in m.entries then m.keys else m.keys + [k], m.entries[k := v])
  }

  /** The order `s` with the key `k` taken out. */
  function Without(s: seq<int>, k: int): (r: seq<int>)
    ensures forall x :: x in r <==> x in s && x != k
    ensures k !in s ==> r == s
    ensures Distinct(s) ==> Distinct(r)
  {
    if s == [] then []
    else
      var rest := Without(s[1..], k);
      assert Distinct(s) ==> s[0] !in s[1..];
      (if s[0] == k then [] else [s[0]]) + rest
  }

  /** `m.delete(k)`: a no-op when `k` is absent. */
  function Delete<V>(m: OrderedMap<V>, k: int): (r: OrderedMap<V>)
    ensures WellFormed(m) ==> WellFormed(r)
    ensures Get(r, k) == None
    ensures forall j :: j != k ==> Get(r, j) == Get(m, j)
    ensures WellFormed(m) && k !in m.entries ==> r == m
  {
    OrderedMap(Without(m.keys, k), m.entries - {k})
  }

  /** The values of the keys `keys`, in that order. */
  function ValuesOf<V>(keys: seq<int>, entries: map<int, V>): (r: seq<V>)
    requires forall i :: 0 <= i < |keys| ==> keys[i] in entries
    ensures |r| == |keys|
    ensures forall i :: 0 <= i < |keys| ==> r[i] == entries[keys[i]]
  {
    if keys == [] then [] else [entries[keys[0]]] + ValuesOf(keys[1..], entries)
  }

  lemma KeysInEntries<V>(m: OrderedMap<V>)
    requires WellFormed(m)
    ensures forall i :: 0 <= i < |m.keys| ==> m.keys[i] in m.entries
  {
    forall i | 0 <= i < |m.keys| ensures m.keys[i] in m.entries {
      assert m.keys[i] in m.keys;
    }
  }

  /** `Array.from(m.values())` */
  function Values<V>(m: OrderedMap<V>): seq<V>
    requires WellFormed(m)
  {
    KeysInEntries(m);
    ValuesOf(m.keys, m.entries)
  }

  /** The position of `k` in the order. */
  function IndexOf(s: seq<int>, k: int): (i: nat)
    requires k in s
    ensures i < |s| && s[i] == k && k !in s[..i]
  {
    if s[0] == k then 0 else 1 + IndexOf(s[1..], k)
  }

  /** Taking a key out of a duplicate-free order closes the gap at its position. */
  lemma {:induction false} WithoutAt(s: seq<int>, k: int)
    requires Distinct(s) && k in s
    ensures Without(s, k) == s[..IndexOf(s, k)] + s[IndexOf(s, k) + 1..]
  {
    var i := IndexOf(s, k);
    var t := s[1..];
    if s[0] == k {
      assert k !in t;
      assert Without(s, k) == Without(t, k) == t;
    } else {
      assert Distinct(t);
      WithoutAt(t, k);
      var j := IndexOf(t, k);
      assert i == j + 1;
      assert s[..i] == [s[0]] + t[..j];
      assert s[i + 1..] == t[j + 1..];
    }
  }

  /** A duplicate-free order has as many keys as the map has entries. */
  lemma {:induction false} DistinctCard(s: seq<int>)
    requires Distinct(s)
    ensures |set x | x in s| == |s|
  {
    if s != [] {
      DistinctCard(s[1..]);
      assert (set x | x in s) == {s[0]} + (set x | x in s[1..]);
    }
  }

  /** `m.size`: the listing has one value per entry. */
  lemma SizeOfValues<V>(m: OrderedMap<V>)
    requires WellFormed(m)
    ensures |Values(m)| == |m.entries|
  {
    DistinctCard(m.keys);
    assert m.entries.Keys == set x | x in m.keys;
  }

  /** Setting a new key appends its value to the listing. */
  lemma ValuesAfterSetNew<V>(m: OrderedMap<V>, k: int, v: V)
    requires WellFormed(m) && k !in m.entries
    ensures Values(Set(m, k, v)) == Values(m) + [v]
  {
    var r := Set(m, k, v);
    assert forall i :: 0 <= i < |m.keys| ==> m.keys[i] != k;
  }

  /** Setting a present key replaces its value in place; the listing keeps its order. */
  lemma ValuesAfterSetExisting<V>(m: OrderedMap<V>, k: int, v: V)
    requires WellFormed(m) && k in m.entries
    ensures Values(Set(m, k, v)) == Values(m)[IndexOf(m.keys, k) := v]
  {
  }

  /** Listing the order with position `i` closed up, against entries that
      agree with `e` everywhere else, closes the same gap in the listing. */
  lemma ValuesOfGap<V>(keys: seq<int>, e: map<int, V>, e2: map<int, V>, i: nat)
    requires i < |keys|
    requires forall j :: 0 <= j < |keys| ==> keys[j] in e
    requires forall j :: 0 <= j < |keys| && j != i ==> keys[j] in e2 && e2[keys[j]] == e[keys[j]]
    ensures ValuesOf(keys[..i] + keys[i + 1..], e2) == ValuesOf(keys, e)[..i] + ValuesOf(keys, e)[i + 1..]
  {
    var a := keys[..i] + keys[i + 1..];
    forall j | 0 <= j < |a| ensures a[j] in e2 {
      var src := if j < i then j else j + 1;
      assert a[j] == keys[src];
    }
    var before, after := ValuesOf(keys, e), ValuesOf(a, e2);
    var gap := before[..i] + before[i + 1..];
    forall j | 0 <= j < |a| ensures after[j] == gap[j] {
      var src := if j < i then j else j + 1;
      assert a[j] == keys[src];
      assert gap[j] == before[src];
    }
    assert after == gap;
  }

  /** Deleting a present key removes exactly its value from the listing. */
  lemma ValuesAfterDelete<V>(m: OrderedMap<V>, k: int)
    requires WellFormed(m) && k in m.entries
    ensures Values(Delete(m, k)) == Values(m)[..IndexOf(m.keys, k)] + Values(m)[IndexOf(m.keys, k) + 1..]
  {
    var i := IndexOf(m.keys, k);
    WithoutAt(m.keys, k);
    KeysInEntries(m);
    var e2 := m.entries - {k};
    forall j | 0 <= j < |m.keys| && j != i
      ensures m.keys[j] in e2 && e2[m.keys[j]] == m.entries[m.keys[j]]
    {
      assert m.keys[j] != m.keys[i];
    }
    ValuesOfGap(m.keys, m.entries, e2, i);
  }

  /** A key deleted and then set again goes to the end of the order. */
  lemma SetAfterDelete<V>(m: OrderedMap<V>, k: int, v: V)
    requires WellFormed(m)
    ensures Set(Delete(m, k), k, v).keys == Without(m.keys, k) + [k]
  {
  }

  /** Deleting twice is deleting once. */
  lemma DeleteIdempotent<V>(m: OrderedMap<V>, k: int)
    requires WellFormed(m)
    ensures Delete(Delete(m, k), k) == Delete(m, k)
  {
  }
}
