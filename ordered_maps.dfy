/**
 * Kotlin's `mutableMapOf()` is a `LinkedHashMap`: it remembers the order in which
 * keys were first inserted, and putting a key that is already present replaces
 * its value where it stands. Here it is a sequence of (key, value) entries.
 */
module OrderedMaps {
  import opened Wrappers

  type OrderedMap<K, V> = seq<(K, V)>

  function Keys<K, V>(m: OrderedMap<K, V>): (ks: seq<K>)
    ensures |ks| == |m| && forall i :: 0 <= i < |m| ==> ks[i] == m[i].0
  {
    seq(|m|, i requires 0 <= i < |m| => m[i].0)
  }

  predicate DistinctKeys<K(==), V>(m: OrderedMap<K, V>) {
    forall i, j :: 0 <= i < j < |m| ==> m[i].0 != m[j].0
  }

  /** Position of the entry for `k`, or -1 when there is none. */
  function IndexOf<K(==), V>(m: OrderedMap<K, V>, k: K): (r: int)
    ensures -1 <= r < |m|
    ensures 0 <= r ==> m[r].0 == k && forall j :: 0 <= j < r ==> m[j].0 != k
    ensures r == -1 <==> k !in Keys(m)
    decreases |m|
  {
    if m == [] then -1
    else if m[0].0 == k then 0
    else
      var i := IndexOf(m[1..], k);
      if i < 0 then -1 else i + 1
  }

  /** `m[k]`: `None` when `k` is not a key. */
  function Get<K(==), V>(m: OrderedMap<K, V>, k: K): (r: Option<V>)
    ensures r.Some? <==> k in Keys(m)
    ensures r.Some? ==> (k, r.value) in m
  {
    var i := IndexOf(m, k);
    if i < 0 then None else Some(m[i].1)
  }

  /** `m[k] = v`: a new key goes last, a present key keeps its place. */
  function Put<K(==,!new), V>(m: OrderedMap<K, V>, k: K, v: V): (r: OrderedMap<K, V>)
    ensures Keys(r) == if k in Keys(m) then Keys(m) else Keys(m) + [k]
    ensures Get(r, k) == Some(v)
    ensures forall k' :: k' != k ==> Get(r, k') == Get(m, k')
    ensures forall e :: e in r ==> e in m || e == (k, v)
    ensures DistinctKeys(m) ==> DistinctKeys(r)
  {
    var i := IndexOf(m, k);
    if i < 0 then
      var r := m + [(k, v)];
      assert Keys(r) == Keys(m) + [k];
      forall k' | k' != k ensures Get(r, k') == Get(m, k') {
        IndexOfPrefix(r, |m|, k');
      }
      r
    else
      var r := m[i := (k, v)];
      assert Keys(r) == Keys(m);
      forall k' | k' != k ensures Get(r, k') == Get(m, k') {
        IndexOfSame(m, r, k');
      }
      r
  }

  /** `values.lastOrNull()`: the value of the key inserted last. */
  function LastValue<K, V>(m: OrderedMap<K, V>): (r: Option<V>)
    ensures r.Some? <==> m != []
    ensures r.Some? ==> r.value == m[|m| - 1].1
  {
    if m == [] then None else Some(m[|m| - 1].1)
  }

  /** "Last" follows insertion order: putting a new key makes its value the last one,
      and re-putting any key but the last one leaves the last value as it was. */
  lemma LastValuePut<K(!new), V>(m: OrderedMap<K, V>, k: K, v: V)
    ensures k !in Keys(m) ==> LastValue(Put(m, k, v)) == Some(v)
    ensures k in Keys(m) && m[|m| - 1].0 != k ==> LastValue(Put(m, k, v)) == LastValue(m)
  {
    var i := IndexOf(m, k);
    if i < 0 {
      assert Put(m, k, v) == m + [(k, v)];
    } else if m[|m| - 1].0 != k {
      var r := Put(m, k, v);
      assert r == m[i := (k, v)];
      assert i != |m| - 1;
      assert r[|r| - 1] == m[|m| - 1];
    }
  }

  /** Replaces the value of the key inserted last, in place. */
  function UpdateLast<K, V>(m: OrderedMap<K, V>, v: V): (r: OrderedMap<K, V>)
    requires m != []
    ensures Keys(r) == Keys(m)
    ensures LastValue(r) == Some(v)
    ensures r[..|m| - 1] == m[..|m| - 1]
    ensures forall e :: e in r ==> e in m[..|m| - 1] || e == (m[|m| - 1].0, v)
  {
    m[|m| - 1 := (m[|m| - 1].0, v)]
  }

  /** Looking `k` up in `m` or in a longer map that starts like `m` agrees when `k` is a key of `m[..n]`, or
      when neither map holds `k` beyond `n`. */
  lemma {:induction false} IndexOfPrefix<K, V>(r: OrderedMap<K, V>, n: nat, k: K)
    requires n <= |r| && forall j :: n <= j < |r| ==> r[j].0 != k
    ensures IndexOf(r, k) == IndexOf(r[..n], k)
    decreases n
  {
    if n > 0 && r[0].0 != k {
      assert r[1..][..n - 1] == r[..n][1..];
      IndexOfPrefix(r[1..], n - 1, k);
    }
  }

  /** Two maps with the same keys position by position look every key up at the same position. */
  lemma {:induction false} IndexOfSame<K, V>(m: OrderedMap<K, V>, r: OrderedMap<K, V>, k: K)
    requires Keys(m) == Keys(r)
    ensures IndexOf(m, k) == IndexOf(r, k)
    decreases |m|
  {
    if m != [] && m[0].0 != k {
      assert Keys(m[1..]) == Keys(m)[1..] && Keys(r[1..]) == Keys(r)[1..];
      IndexOfSame(m[1..], r[1..], k);
    }
  }
}
