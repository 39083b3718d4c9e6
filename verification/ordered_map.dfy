/**
 * Insertion-ordered finite maps: the part of a Python `dict`'s behaviour that the
 * graph relies on, for integer keys. Iterating a dict visits its keys in the order they were first
 * inserted; assigning to a present key keeps its position; `pop` removes it.
 */
module OrderedMaps {

  datatype Option<+T> = None | Some(value: T)

  /** `keys` lists the keys in insertion order, `entries` holds the values. */
  datatype OrderedMap<V> = OrderedMap(keys: seq<int>, entries: map<int, V>)

  /** No element occurs twice. */
  predicate Distinct<T(==)>(s: seq<T>) {
    forall i, j :: 0 <= i < j < |s| ==> s[i] != s[j]
  }

  /** The key sequence lists each key of `entries` exactly once. */
  predicate Valid<V>(m: OrderedMap<V>) {
    && Distinct(m.keys)
    && (forall k :: k in m.keys ==> k in m.entries)
    && (forall k :: k in m.entries ==> k in m.keys)
  }

  /** A fresh `dict()`. */
  function Empty<V>(): (m: OrderedMap<V>)
    ensures Valid(m)
    ensures m.entries == map[]
  {
    OrderedMap([], map[])
  }

  /** `d[k] = v`: a present key keeps its place, a new key goes to the end. */
  function Put<V>(m: OrderedMap<V>, k: int, v: V): (r: OrderedMap<V>)
    ensures r.entries == m.entries[k := v]
    ensures k in m.entries ==> r.keys == m.keys
    ensures k !in m.entries ==> r.keys == m.keys + [k]
    ensures Valid(m) ==> Valid(r)
  {
    if k in m.entries then OrderedMap(m.keys, m.entries[k := v])
    else OrderedMap(m.keys + [k], m.entries[k := v])
  }

  /** `s` with every occurrence of `k` deleted, the rest in their original order. */
  function Without(s: seq<int>, k: int): (r: seq<int>)
    ensures forall x :: x in r <==> x in s && x != k
    ensures |r| <= |s|
    ensures Distinct(s) ==> Distinct(r)
  {
    if s == [] then []
    else if s[0] == k then Without(s[1..], k)
    else
      var r := [s[0]] + Without(s[1..], k);
      assert Distinct(s) ==> s[0] !in s[1..] && Distinct(s[1..]);
      assert forall j :: 0 < j < |r| ==> r[j] == Without(s[1..], k)[j - 1];
      r
  }

  /** The map left behind by a successful `d.pop(k)`. */
  function Forget<V>(m: OrderedMap<V>, k: int): (r: OrderedMap<V>)
    ensures r.entries.Keys == m.entries.Keys - {k}
    ensures forall x :: x in r.entries ==> r.entries[x] == m.entries[x]
    ensures Valid(m) ==> Valid(r)
  {
    OrderedMap(Without(m.keys, k), m.entries - {k})
  }

  /** `d.pop(k)`: `None` stands for the `KeyError` Python raises on an absent key. */
  function Pop<V>(m: OrderedMap<V>, k: int): (r: Option<OrderedMap<V>>)
    ensures r.Some? <==> k in m.entries
    ensures r.Some? ==> r.value == Forget(m, k)
  {
    if k in m.entries then Some(Forget(m, k)) else None
  }

  /** Deleting a key just appended to a sequence without it gives the sequence back. */
  lemma {:induction false} WithoutAppended(s: seq<int>, k: int)
    requires k !in s
    ensures Without(s + [k], k) == s
  {
    if s == [] {
      assert [k][1..] == [];
    } else {
      assert (s + [k])[1..] == s[1..] + [k];
      assert k !in s[1..];
      WithoutAppended(s[1..], k);
    }
  }

  /** Popping a key just inserted into a map without it restores the map, order included. */
  lemma PopAfterPut<V>(m: OrderedMap<V>, k: int, v: V)
    requires Valid(m)
    requires k !in m.entries
    ensures Pop(Put(m, k, v), k) == Some(m)
  {
    WithoutAppended(m.keys, k);
    assert m.entries[k := v] - {k} == m.entries;
  }

  /** Writing a key twice with the same value is the same as writing it once. */
  lemma PutIdempotent<V>(m: OrderedMap<V>, k: int, v: V)
    ensures Put(Put(m, k, v), k, v) == Put(m, k, v)
  {
  }
}
