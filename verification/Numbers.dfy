/** Numbers and look-ups that several modules share. */
module Numbers {
  import opened Seqs

  /** One more than the largest `size_t`. */
  const SIZE_T: nat := 0x1_0000_0000_0000_0000

  function Min(a: nat, b: nat): nat {
    if a < b then a else b
  }

  /** What a map holds for a key. */
  function Find<K, V>(m: map<K, V>, k: K): Option<V> {
    if k in m then Some(m[k]) else None
  }

  /** Different numbers below n. */
  ghost predicate IsOrder(order: seq<nat>, n: nat) {
    && (forall i :: 0 <= i < |order| ==> order[i] < n)
    && forall i, k :: 0 <= i < k < |order| ==> order[i] != order[k]
  }
}
