/** A bounded map that accumulates events under a key: the pattern of the monitors' hash
    maps, where inserting a new key into a full map fails silently. */
module CounterMaps {

  /** `bpf_map_update_elem` on a hash map of `capacity` entries. */
  function Put<K, V>(m: map<K, V>, k: K, v: V, capacity: nat): map<K, V> {
    if k in m || |m| < capacity then m[k := v] else m
  }

  /** One event: extend the key's entry, or start one. */
  function Track<E, K, V>(m: map<K, V>, k: K, e: E, first: E -> V, more: (V, E) -> V, capacity: nat): map<K, V> {
    if k in m then m[k := more(m[k], e)] else Put(m, k, first(e), capacity)
  }

  ghost function TrackAll<E, K, V>(es: seq<E>, key: E -> K, first: E -> V, more: (V, E) -> V, capacity: nat)
    : map<K, V>
  {
    if es == [] then map[]
    else
      var e := es[|es| - 1];
      Track(TrackAll(es[..|es| - 1], key, first, more, capacity), key(e), e, first, more, capacity)
  }

  /** The events under one key, in order. */
  ghost function Under<E, K>(es: seq<E>, key: E -> K, k: K): seq<E> {
    if es == [] then []
    else
      var e := es[|es| - 1];
      Under(es[..|es| - 1], key, k) + if key(e) == k then [e] else []
  }

  ghost function Fold<E, V>(es: seq<E>, first: E -> V, more: (V, E) -> V): V
    requires es != []
  {
    if |es| == 1 then first(es[0]) else more(Fold(es[..|es| - 1], first, more), es[|es| - 1])
  }

  lemma FoldSnoc<E, V>(es: seq<E>, e: E, first: E -> V, more: (V, E) -> V)
    ensures Fold(es + [e], first, more) == if es == [] then first(e) else more(Fold(es, first, more), e)
  {
    assert (es + [e])[..|es|] == es;
  }

  /** Every entry holds all events under its key, and a key with events is absent only
      while the map is full: a refused key is never accepted later. */
  lemma {:induction false} TrackExact<E, K, V>(es: seq<E>, key: E -> K, first: E -> V, more: (V, E) -> V,
      capacity: nat, k: K)
    ensures var m := TrackAll(es, key, first, more, capacity);
            && |m| <= capacity
            && (k in m ==> Under(es, key, k) != [] && m[k] == Fold(Under(es, key, k), first, more))
            && (k !in m && Under(es, key, k) != [] ==> |m| == capacity)
  {
    if es != [] {
      var init, e := es[..|es| - 1], es[|es| - 1];
      var m := TrackAll(init, key, first, more, capacity);
      TrackExact(init, key, first, more, capacity, k);
      TrackExact(init, key, first, more, capacity, key(e));
      FoldSnoc(Under(init, key, k), e, first, more);
      assert Under(es, key, k) == if key(e) == k then Under(init, key, k) + [e] else Under(init, key, k);
    }
  }

  /** Entries are never removed. */
  lemma TrackGrows<E, K, V>(m: map<K, V>, k: K, e: E, first: E -> V, more: (V, E) -> V, capacity: nat)
    ensures m.Keys <= Track(m, k, e, first, more, capacity).Keys <= m.Keys + {k}
    ensures |m| <= |Track(m, k, e, first, more, capacity)| <= |m| + 1
  {
  }
}
