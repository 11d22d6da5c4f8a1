/**
 * A JavaScript `Map` as an insertion-ordered sequence of entries: iteration
 * visits entries in insertion order, and `set` on a key that is already present
 * replaces its value in place, keeping its position.
 */
module OrderedMaps {
  import opened Options

  type OrderedMap<K, V> = seq<(K, V)>

  /** Position of the entry for `k`. */
  function IndexOf<K(==,!new), V>(m: OrderedMap<K, V>, k: K): (r: Option<nat>)
    ensures r.Some? ==> r.value < |m| && m[r.value].0 == k
    ensures r.Some? ==> forall i | 0 <= i < r.value :: m[i].0 != k
    ensures r.None? ==> forall i | 0 <= i < |m| :: m[i].0 != k
    decreases |m|
  {
    if m == [] then None
    else if m[0].0 == k then Some(0)
    else match IndexOf(m[1..], k)
      case None => None
      case Some(i) => Some(i + 1)
  }

  /** `map.has(k)` */
  predicate Has<K(==,!new), V>(m: OrderedMap<K, V>, k: K) {
    IndexOf(m, k).Some?
  }

  /** `map.get(k)`, with `None` for `undefined`. */
  function Get<K(==,!new), V>(m: OrderedMap<K, V>, k: K): Option<V> {
    match IndexOf(m, k)
    case None => None
    case Some(i) => Some(m[i].1)
  }

  /** Every key occurs once, as it does in every map built by `Set`. */
  predicate DistinctKeys<K(==,!new), V>(m: OrderedMap<K, V>) {
    forall i, j | 0 <= i < j < |m| :: m[i].0 != m[j].0
  }

  /** `map.set(k, v)` */
  function Set<K(==,!new), V>(m: OrderedMap<K, V>, k: K, v: V): (r: OrderedMap<K, V>)
    ensures Get(r, k) == Some(v)
    ensures forall k' | k' != k :: Get(r, k') == Get(m, k')
    ensures Has(m, k) ==> |r| == |m| && forall i | 0 <= i < |m| :: r[i].0 == m[i].0
    ensures Has(m, k) ==> forall i | 0 <= i < |m| && m[i].0 != k :: r[i] == m[i]
    ensures !Has(m, k) ==> r == m + [(k, v)]
    ensures DistinctKeys(m) ==> DistinctKeys(r)
  {
    match IndexOf(m, k)
    case Some(i) =>
      var r := m[i := (k, v)];
      SameKeysSameIndex(m, r);
      r
    case None =>
      AppendNewKey(m, k, v);
      m + [(k, v)]
  }

  /** Appending a new key finds it last and every other key where it was. */
  lemma AppendNewKey<K(!new), V>(m: OrderedMap<K, V>, k: K, v: V)
    requires !Has(m, k)
    ensures IndexOf(m + [(k, v)], k) == Some(|m|)
    ensures forall k' | k' != k :: IndexOf(m + [(k, v)], k') == IndexOf(m, k')
  {
    var r := m + [(k, v)];
    IndexOfFirst(r, k, |m|);
    forall k' | k' != k ensures IndexOf(r, k') == IndexOf(m, k') {
      match IndexOf(m, k')
      case None => IndexOfFirst(r, k', -1);
      case Some(i) => IndexOfFirst(r, k', i);
    }
  }

  /** `IndexOf` is determined by the first position holding the key (-1: none). */
  lemma IndexOfFirst<K(!new), V>(m: OrderedMap<K, V>, k: K, i: int)
    requires -1 <= i < |m|
    requires i >= 0 ==> m[i].0 == k
    requires forall j | 0 <= j < |m| && (i < 0 || j < i) :: m[j].0 != k
    ensures IndexOf(m, k) == if i < 0 then None else Some(i)
  {
  }

  /** Maps with the same keys in the same order find every key at the same position. */
  lemma SameKeysSameIndex<K(!new), V>(m: OrderedMap<K, V>, r: OrderedMap<K, V>)
    requires |m| == |r|
    requires forall j | 0 <= j < |m| :: m[j].0 == r[j].0
    ensures forall k :: IndexOf(m, k) == IndexOf(r, k)
  {
    forall k ensures IndexOf(m, k) == IndexOf(r, k) {
      match IndexOf(m, k)
      case None => IndexOfFirst(r, k, -1);
      case Some(i) => IndexOfFirst(r, k, i);
    }
  }
}
