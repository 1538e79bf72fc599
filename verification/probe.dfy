/**
 * Linear probing: `find_bucket_for_insert` and the placement of a new key
 * into the empty bucket it returns.
 */
module Probe {
  import opened HashTable

  /**
   * A probe for `k` that stopped at bucket `b` (because it holds `k` or is
   * empty, having passed only occupied buckets holding other keys) has found
   * `k` exactly when `b` is occupied.
   */
  lemma ProbeStopsAtKey<V>(s: seq<Node<V>>, hash: Key -> nat, k: Key, b: nat)
    requires Probeable(s, hash) && b < |s|
    requires s[b].key == k || s[b].key == EmptyKey
    requires var h := Home(hash, k, |s|);
      forall j :: 0 <= j < Dist(h, b, |s|) ==> s[Slot(h, j, |s|)].key != EmptyKey && s[Slot(h, j, |s|)].key != k
    ensures s[b].key != EmptyKey <==> k in ContentsOf(s)
  {
    var cap := |s|;
    var h := Home(hash, k, cap);
    if s[b].key != EmptyKey {
      ContentsAt(s, b);
    } else {
      var db := Dist(h, b, cap);
      SlotDist(h, db, b, cap);
      if k == EmptyKey {
        EmptyKeyAbsent(s);
      } else {
        forall i | 0 <= i < cap
          ensures s[i].key != k
        {
          if s[i].key != EmptyKey {
            assert Reachable(s, hash, i);
            SlotDist(h, Dist(h, i, cap), i, cap);
          }
        }
        AbsentKey(s, k);
      }
    }
  }

  /**
   * `find_bucket_for_insert`: probe from the home bucket of `k` to the first
   * bucket that holds `k` or is empty. That bucket holds `k` exactly when
   * `k` is stored, and every bucket before it on the probe path is occupied.
   */
  method FindBucketForInsert<V>(s: seq<Node<V>>, hash: Key -> nat, k: Key) returns (b: nat)
    requires Probeable(s, hash)
    requires CountUsed(s) < |s|
    ensures b < |s|
    ensures s[b].key == k || s[b].key == EmptyKey
    ensures s[b].key != EmptyKey <==> k in ContentsOf(s)
    ensures ProbePathClear(s, Home(hash, k, |s|), Dist(Home(hash, k, |s|), b, |s|))
  {
    var cap := |s|;
    var h := Home(hash, k, cap);
    ghost var e := SomeBucketEmpty(s);
    ghost var steps: nat := 0;
    b := h;
    while s[b].key != k && s[b].key != EmptyKey
      invariant steps <= Dist(h, e, cap)
      invariant b == Slot(h, steps, cap)
      invariant forall j :: 0 <= j < steps ==> s[Slot(h, j, cap)].key != EmptyKey && s[Slot(h, j, cap)].key != k
      decreases Dist(h, e, cap) - steps
    {
      SlotDist(h, steps, e, cap);
      b := b + 1;
      if b == cap {
        b := 0;
      }
      steps := steps + 1;
    }
    SlotDist(h, steps, b, cap);
    ProbeStopsAtKey(s, hash, k, b);
  }

  /**
   * Storing a new key in the empty bucket its probe stopped at keeps the
   * layout probeable, adds exactly that entry, and occupies one more bucket.
   */
  lemma PlaceInEmpty<V>(s: seq<Node<V>>, hash: Key -> nat, b: nat, k: Key, v: V)
    requires Probeable(s, hash) && b < |s| && s[b].key == EmptyKey
    requires k != EmptyKey && k !in ContentsOf(s)
    requires ProbePathClear(s, Home(hash, k, |s|), Dist(Home(hash, k, |s|), b, |s|))
    ensures Probeable(s[b := Node(k, v)], hash)
    ensures ContentsOf(s[b := Node(k, v)]) == ContentsOf(s)[k := v]
    ensures CountUsed(s[b := Node(k, v)]) == CountUsed(s) + 1
  {
    var s' := s[b := Node(k, v)];
    var cap := |s|;
    CountUsedUpdate(s, b, Node(k, v));
    forall i | 0 <= i < cap && s[i].key != EmptyKey
      ensures s[i].key != k
    {
      ContentsAt(s, i);
    }
    assert DistinctKeys(s');
    forall i | 0 <= i < cap && s'[i].key != EmptyKey
      ensures Reachable(s', hash, i)
    {
      if i != b {
        assert Reachable(s, hash, i);
      }
    }
    var m := ContentsOf(s)[k := v];
    forall x | x in ContentsOf(s')
      ensures x in m && m[x] == ContentsOf(s')[x]
    {
      var j := ContentsIndex(s', x);
      if j != b {
        ContentsAt(s, j);
      }
    }
    forall x | x in m
      ensures x in ContentsOf(s')
    {
      if x == k {
        ContentsAt(s', b);
      } else {
        var j := ContentsIndex(s, x);
        ContentsAt(s', j);
      }
    }
  }
}
