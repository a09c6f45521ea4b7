/** The selector: the buckets are moved out of the map into a vector, in the
    map's own (unspecified) order, the vector is sorted by weight in descending
    order, and its first element is taken. */
module Selector {
  import opened Accumulator

  /** `buckets.into_iter().map(|(_, b)| b).collect()`. The map defines no
      iteration order, so each step takes any key not yet taken. The ghost
      `keys` records the key each bucket came from. */
  method CollectBuckets(buckets: map<nat, Bucket>) returns (v: seq<Bucket>, ghost keys: seq<nat>)
    ensures |v| == |keys| == |buckets|
    ensures forall t :: 0 <= t < |keys| ==> keys[t] in buckets && v[t] == buckets[keys[t]]
    ensures forall t, u :: 0 <= t < u < |keys| ==> keys[t] != keys[u]
    ensures forall k :: k in buckets ==> k in keys
    ensures forall t :: 0 <= t < |v| ==> v[t] in buckets.Values
    ensures forall k :: k in buckets ==> buckets[k] in v
  {
    var rest := buckets.Keys;
    v, keys := [], [];
    while rest != {}
      invariant rest <= buckets.Keys
      invariant |v| == |keys| && |keys| + |rest| == |buckets|
      invariant forall t :: 0 <= t < |keys| ==> keys[t] in buckets && keys[t] !in rest && v[t] == buckets[keys[t]]
      invariant forall t, u :: 0 <= t < u < |keys| ==> keys[t] != keys[u]
      invariant forall k :: k in buckets ==> k in rest || k in keys
      decreases rest
    {
      var k :| k in rest;
      v, keys := v + [buckets[k]], keys + [k];
      rest := rest - {k};
    }
    forall k | k in buckets
      ensures buckets[k] in v
    {
      var t :| 0 <= t < |keys| && keys[t] == k;
      assert v[t] == buckets[k];
    }
  }

  /** Element 0 of the vector after a stable sort by descending weight: the
      first bucket, in vector order, whose weight no other bucket exceeds. */
  method FirstMaximum(v: seq<Bucket>) returns (idx: nat)
    requires |v| > 0
    ensures idx < |v|
    ensures forall t :: 0 <= t < |v| ==> v[t].count <= v[idx].count
    ensures forall t :: 0 <= t < idx ==> v[t].count < v[idx].count
  {
    idx := 0;
    var t := 1;
    while t < |v|
      invariant idx < t <= |v|
      invariant forall u :: 0 <= u < t ==> v[u].count <= v[idx].count
      invariant forall u :: 0 <= u < idx ==> v[u].count < v[idx].count
    {
      if v[t].count > v[idx].count {
        idx := t;
      }
      t := t + 1;
    }
  }

  ghost predicate SortedByCountDescending(s: seq<Bucket>) {
    forall i, j :: 0 <= i < j < |s| ==> s[i].count >= s[j].count
  }

  /** Whatever order the sort leaves equal weights in, its first element has
      the weight the selected bucket has: the greatest one. */
  lemma SortedHeadHasMaximalCount(v: seq<Bucket>, sorted: seq<Bucket>, idx: nat)
    requires idx < |v|
    requires forall t :: 0 <= t < |v| ==> v[t].count <= v[idx].count
    requires multiset(sorted) == multiset(v)
    requires SortedByCountDescending(sorted)
    ensures |sorted| > 0 && sorted[0].count == v[idx].count
  {
    assert v[idx] in multiset(v);
    assert v[idx] in multiset(sorted);
    var j :| 0 <= j < |sorted| && sorted[j] == v[idx];
    assert sorted[0] in multiset(sorted);
    assert sorted[0] in multiset(v);
    var i :| 0 <= i < |v| && v[i] == sorted[0];
  }
}
