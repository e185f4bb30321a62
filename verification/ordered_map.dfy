/** An insertion-ordered dictionary: the part of .NET `Dictionary<K, V>`
    the tables use. Entries are kept in the order their keys were first
    added; overwriting a key keeps its position, and enumeration follows
    the sequence. */
module OrderedMap {
  import opened Wrappers

  datatype Entry<K, V> = Entry(key: K, value: V)

  type OMap<K, V> = seq<Entry<K, V>>

  /** The keys, in enumeration order. */
  function Keys<K(==), V>(m: OMap<K, V>): (r: seq<K>)
    ensures |r| == |m|
    ensures forall i :: 0 <= i < |m| ==> r[i] == m[i].key
  {
    seq(|m|, i requires 0 <= i < |m| => m[i].key)
  }

  /** The values, in enumeration order (`Dictionary.Values`). */
  function Values<K(==), V>(m: OMap<K, V>): (r: seq<V>)
    ensures |r| == |m|
    ensures forall i :: 0 <= i < |m| ==> r[i] == m[i].value
  {
    seq(|m|, i requires 0 <= i < |m| => m[i].value)
  }

  /** No key appears twice. */
  predicate Unique<K(==), V>(m: OMap<K, V>) {
    forall i, j :: 0 <= i < j < |m| ==> m[i].key != m[j].key
  }

  /** Position of the entry for `k`, if any. */
  function Find<K(==), V>(m: OMap<K, V>, k: K): (r: Option<nat>)
    ensures r.Some? ==> r.value < |m| && m[r.value].key == k
    ensures r.None? <==> forall i :: 0 <= i < |m| ==> m[i].key != k
    ensures r.Some? ==> forall i :: 0 <= i < r.value ==> m[i].key != k
  {
    if m == [] then None
    else if m[0].key == k then Some(0)
    else match Find(m[1..], k)
      case None => None
      case Some(i) => Some(i + 1)
  }

  /** `ContainsKey`. */
  predicate Has<K(==), V>(m: OMap<K, V>, k: K) {
    Find(m, k).Some?
  }

  /** `TryGetValue`. */
  function Get<K(==), V>(m: OMap<K, V>, k: K): (r: Option<V>)
    ensures r.Some? <==> Has(m, k)
    ensures r.Some? ==> Entry(k, r.value) in m
  {
    match Find(m, k)
    case None => None
    case Some(i) => Some(m[i].value)
  }

  /** The indexer setter `m[k] = v`: overwrite in place, or append. */
  function Put<K(==,!new), V>(m: OMap<K, V>, k: K, v: V): (r: OMap<K, V>)
    ensures Get(r, k) == Some(v)
    ensures forall k' :: k' != k ==> Get(r, k') == Get(m, k')
    ensures Has(m, k) ==> Keys(r) == Keys(m)
    ensures !Has(m, k) ==> Keys(r) == Keys(m) + [k]
    ensures Unique(m) ==> Unique(r)
  {
    match Find(m, k)
    case Some(i) =>
      var r := m[i := Entry(k, v)];
      FindSameKeys(m, r, k);
      assert forall k' :: k' != k ==> Find(r, k') == Find(m, k') by {
        forall k' | k' != k ensures Find(r, k') == Find(m, k') {
          FindSameKeys(m, r, k');
        }
      }
      r
    case None =>
      var r := m + [Entry(k, v)];
      assert forall k' :: k' != k ==> Find(r, k') == Find(m, k') by {
        forall k' | k' != k ensures Find(r, k') == Find(m, k') {
          FindAppend(m, Entry(k, v), k');
        }
      }
      FindAppend(m, Entry(k, v), k);
      r
  }

  /** `Remove(k)`: drops the entry for `k` and says whether there was one. */
  function Remove<K(==,!new), V>(m: OMap<K, V>, k: K): (r: (OMap<K, V>, bool))
    ensures r.1 <==> Has(m, k)
    ensures Unique(m) ==> !Has(r.0, k)
    ensures forall k' :: k' != k ==> Get(r.0, k') == Get(m, k')
    ensures Unique(m) ==> Unique(r.0)
    ensures !Has(m, k) ==> r.0 == m
    ensures Has(m, k) ==> |r.0| == |m| - 1
  {
    match Find(m, k)
    case None => (m, false)
    case Some(i) =>
      var r := m[..i] + m[i + 1..];
      forall k' | k' != k ensures Get(r, k') == Get(m, k') {
        FindRemoveAt(m, i, k');
      }
      (r, true)
  }

  // ---------------------------------------------------------------------
  // Lemmas

  lemma {:induction false} FindSameKeys<K, V>(m: OMap<K, V>, m': OMap<K, V>, k: K)
    requires |m| == |m'|
    requires forall i :: 0 <= i < |m| ==> m[i].key == m'[i].key
    ensures Find(m, k) == Find(m', k)
    decreases |m|
  {
    if m != [] {
      FindSameKeys(m[1..], m'[1..], k);
    }
  }

  lemma {:induction false} FindAppend<K, V>(m: OMap<K, V>, e: Entry<K, V>, k: K)
    ensures Find(m + [e], k) == (if Find(m, k).Some? then Find(m, k) else if e.key == k then Some(|m|) else None)
    decreases |m|
  {
    if m != [] {
      assert (m + [e])[1..] == m[1..] + [e];
      FindAppend(m[1..], e, k);
    }
  }

  lemma {:induction false} FindRemoveAt<K, V>(m: OMap<K, V>, i: nat, k: K)
    requires i < |m| && m[i].key != k
    ensures Get(m[..i] + m[i + 1..], k) == Get(m, k)
    decreases i
  {
    if i > 0 {
      var r := m[..i] + m[i + 1..];
      assert r[1..] == m[1..][..i - 1] + m[1..][i..];
      FindRemoveAt(m[1..], i - 1, k);
    } else {
      assert m[..i] + m[i + 1..] == m[1..];
    }
  }
}
