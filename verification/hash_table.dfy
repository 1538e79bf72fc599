/**
 * The bucket layout of `FlatHashMapImpl`: a vector of (key, value) nodes in
 * which the default key marks an empty bucket, together with the invariants
 * that linear probing relies on and the abstract key-to-value map the
 * buckets represent.
 */
module HashTable {

  /** Keys are integers; the default-constructed key `KeyT()` is 0. */
  type Key = int

  const EmptyKey: Key := 0

  /** One bucket. Its value is meaningless while the key is the empty key. */
  datatype Node<V> = Node(key: Key, value: V)

  /**
   * The map object: the bucket vector `nodes_`, the counter `used_nodes_`,
   * and the two template parameters the code consults, `HashT` and the
   * default value `ValueT()` that `operator[]` inserts.
   */
  datatype Table<V> = Table(nodes: seq<Node<V>>, used: nat, hash: Key -> nat, defaultValue: V)

  /** 1 for an occupied bucket, 0 for an empty one. */
  function Weight<V>(n: Node<V>): nat
  {
    if n.key == EmptyKey then 0 else 1
  }

  /** The number of occupied buckets. */
  function CountUsed<V>(s: seq<Node<V>>): (n: nat)
    ensures n <= |s|
  {
    if |s| == 0 then 0 else CountUsed(s[..|s| - 1]) + Weight(s[|s| - 1])
  }

  // ---------------------------------------------------------------------
  // Cyclic positions. A probe sequence starts at a home bucket `h` and
  // visits `Slot(h, 0)`, `Slot(h, 1)`, ... wrapping at the capacity; `Dist`
  // is the number of steps from `h` to a bucket.
  // ---------------------------------------------------------------------

  /** The bucket `j` steps after `h`. */
  function Slot(h: nat, j: nat, cap: nat): (p: nat)
    requires h < cap && j < cap
    ensures p < cap
  {
    if h + j < cap then h + j else h + j - cap
  }

  /** The number of probe steps from bucket `h` to bucket `p`. */
  function Dist(h: nat, p: nat, cap: nat): (d: nat)
    requires h < cap && p < cap
    ensures d < cap
  {
    if h <= p then p - h else p + cap - h
  }

  lemma SlotDist(h: nat, j: nat, p: nat, cap: nat)
    requires h < cap && j < cap && p < cap
    ensures Slot(h, Dist(h, p, cap), cap) == p
    ensures Dist(h, Slot(h, j, cap), cap) == j
    ensures Slot(h, j, cap) == p <==> j == Dist(h, p, cap)
  {
  }

  /** `calc_bucket`: the home bucket of a key. */
  function Home(hash: Key -> nat, k: Key, cap: nat): (h: nat)
    requires cap > 0
    ensures h < cap
  {
    hash(k) % cap
  }

  // ---------------------------------------------------------------------
  // Invariants
  // ---------------------------------------------------------------------

  /** No key is stored twice. */
  ghost predicate DistinctKeys<V>(s: seq<Node<V>>)
  {
    forall i, j :: 0 <= i < |s| && 0 <= j < |s| && i != j && s[i].key != EmptyKey ==> s[i].key != s[j].key
  }

  /** The first `d` buckets of the probe sequence from `h` are all occupied. */
  ghost predicate ProbePathClear<V>(s: seq<Node<V>>, h: nat, d: nat)
    requires h < |s| && d <= |s|
  {
    forall j :: 0 <= j < d ==> s[Slot(h, j, |s|)].key != EmptyKey
  }

  /** The key in bucket `i` is found by probing from its home bucket. */
  ghost predicate Reachable<V>(s: seq<Node<V>>, hash: Key -> nat, i: nat)
    requires i < |s|
  {
    var h := Home(hash, s[i].key, |s|);
    ProbePathClear(s, h, Dist(h, i, |s|))
  }

  /** The layout that linear probing needs: distinct keys, each reachable. */
  ghost predicate Probeable<V>(s: seq<Node<V>>, hash: Key -> nat)
  {
    && DistinctKeys(s)
    && forall i {:trigger Reachable(s, hash, i)} :: 0 <= i < |s| && s[i].key != EmptyKey ==> Reachable(s, hash, i)
  }

  /**
   * The object invariant: a probeable layout, `used_nodes_` counting the
   * occupied buckets, and the load factor at most 0.6, which leaves an empty
   * bucket whenever the table is not empty.
   */
  ghost predicate Valid<V>(t: Table<V>)
  {
    && Probeable(t.nodes, t.hash)
    && t.used == CountUsed(t.nodes)
    && t.used * 10 <= |t.nodes| * 6
  }

  /**
   * The key-to-value map that the buckets represent, built bucket by bucket.
   * With distinct keys the order of the buckets does not matter.
   */
  ghost function ContentsOf<V>(s: seq<Node<V>>): map<Key, V>
  {
    if |s| == 0 then map[]
    else
      var m := ContentsOf(s[..|s| - 1]);
      var n := s[|s| - 1];
      if n.key == EmptyKey then m else m[n.key := n.value]
  }

  ghost function Contents<V>(t: Table<V>): map<Key, V>
    requires Valid(t)
  {
    ContentsOf(t.nodes)
  }

  // ---------------------------------------------------------------------
  // Lemmas about the abstraction
  // ---------------------------------------------------------------------

  /** A prefix of a layout with distinct keys has distinct keys. */
  lemma DistinctPrefix<V>(s: seq<Node<V>>, n: nat)
    requires DistinctKeys(s) && n <= |s|
    ensures DistinctKeys(s[..n])
  {
    assert forall i :: 0 <= i < n ==> s[..n][i] == s[i];
  }

  /** An occupied bucket's key is stored with that bucket's value. */
  lemma {:induction false} ContentsAt<V>(s: seq<Node<V>>, i: nat)
    requires DistinctKeys(s) && i < |s| && s[i].key != EmptyKey
    ensures s[i].key in ContentsOf(s) && ContentsOf(s)[s[i].key] == s[i].value
  {
    var last := |s| - 1;
    if i < last {
      DistinctPrefix(s, last);
      ContentsAt(s[..last], i);
    }
  }

  /** A key that no bucket holds is not in the map. */
  lemma {:induction false} AbsentKey<V>(s: seq<Node<V>>, k: Key)
    requires forall j :: 0 <= j < |s| ==> s[j].key != k
    ensures k !in ContentsOf(s)
  {
    if |s| > 0 {
      AbsentKey(s[..|s| - 1], k);
    }
  }

  /** A stored key lives in an occupied bucket, which holds its value. */
  lemma {:induction false} ContentsIndex<V>(s: seq<Node<V>>, k: Key) returns (i: nat)
    requires DistinctKeys(s) && k in ContentsOf(s)
    ensures i < |s| && s[i].key == k && k != EmptyKey && ContentsOf(s)[k] == s[i].value
  {
    var last := |s| - 1;
    if s[last].key == k && k != EmptyKey {
      i := last;
    } else {
      DistinctPrefix(s, last);
      i := ContentsIndex(s[..last], k);
    }
    ContentsAt(s, i);
  }

  /** The empty key is never in the map. */
  lemma {:induction false} EmptyKeyAbsent<V>(s: seq<Node<V>>)
    ensures EmptyKey !in ContentsOf(s)
  {
    if |s| > 0 {
      EmptyKeyAbsent(s[..|s| - 1]);
    }
  }

  /** Replacing one bucket changes the occupied count by the difference of their weights. */
  lemma {:induction false} CountUsedUpdate<V>(s: seq<Node<V>>, i: nat, n: Node<V>)
    requires i < |s|
    ensures CountUsed(s[i := n]) + Weight(s[i]) == CountUsed(s) + Weight(n)
  {
    var last := |s| - 1;
    if i == last {
      assert s[i := n][..last] == s[..last];
    } else {
      assert s[i := n][..last] == s[..last][i := n];
      CountUsedUpdate(s[..last], i, n);
    }
  }

  /** Overwriting the value of an occupied bucket changes only that key's value. */
  lemma ReplaceValue<V>(s: seq<Node<V>>, hash: Key -> nat, pos: nat, w: V)
    requires Probeable(s, hash) && pos < |s| && s[pos].key != EmptyKey
    ensures var s' := s[pos := s[pos].(value := w)];
            && Probeable(s', hash)
            && CountUsed(s') == CountUsed(s)
            && ContentsOf(s') == ContentsOf(s)[s[pos].key := w]
  {
    var s' := s[pos := s[pos].(value := w)];
    CountUsedUpdate(s, pos, s[pos].(value := w));
    assert forall i :: 0 <= i < |s| ==> s'[i].key == s[i].key;
    assert DistinctKeys(s');
    forall i | 0 <= i < |s| && s'[i].key != EmptyKey
      ensures Reachable(s', hash, i)
    {
      assert Reachable(s, hash, i);
    }
    var m := ContentsOf(s)[s[pos].key := w];
    forall x | x in ContentsOf(s')
      ensures x in m && m[x] == ContentsOf(s')[x]
    {
      var j := ContentsIndex(s', x);
      if j != pos {
        ContentsAt(s, j);
      }
    }
    forall x | x in m
      ensures x in ContentsOf(s')
    {
      if x == s[pos].key {
        ContentsAt(s', pos);
      } else {
        var j := ContentsIndex(s, x);
        ContentsAt(s', j);
      }
    }
  }

  /** Fewer occupied buckets than buckets means some bucket is empty. */
  lemma {:induction false} SomeBucketEmpty<V>(s: seq<Node<V>>) returns (e: nat)
    requires CountUsed(s) < |s|
    ensures e < |s| && s[e].key == EmptyKey
  {
    var last := |s| - 1;
    if s[last].key == EmptyKey {
      e := last;
    } else {
      e := SomeBucketEmpty(s[..last]);
    }
  }

  /**
   * A load factor of at most 0.6 leaves an empty bucket in any allocated
   * table, which is what makes every probe loop stop.
   */
  lemma LoadFactorLeavesEmptyBucket<V>(t: Table<V>) returns (e: nat)
    requires Valid(t) && |t.nodes| > 0
    ensures t.used < |t.nodes|
    ensures e < |t.nodes| && t.nodes[e].key == EmptyKey
  {
    e := SomeBucketEmpty(t.nodes);
  }

  /** A vector of empty buckets holds nothing. */
  lemma {:induction false} AllEmpty<V>(s: seq<Node<V>>, hash: Key -> nat)
    requires forall i :: 0 <= i < |s| ==> s[i].key == EmptyKey
    ensures CountUsed(s) == 0 && Probeable(s, hash) && ContentsOf(s) == map[]
  {
    if |s| > 0 {
      AllEmpty(s[..|s| - 1], hash);
    }
  }

  /** Extending a prefix by one bucket adds that bucket's entry, if any. */
  lemma PrefixStep<V>(s: seq<Node<V>>, i: nat)
    requires DistinctKeys(s) && i < |s|
    ensures DistinctKeys(s[..i]) && DistinctKeys(s[..i + 1])
    ensures s[i].key != EmptyKey ==> s[i].key !in ContentsOf(s[..i])
    ensures CountUsed(s[..i + 1]) == CountUsed(s[..i]) + Weight(s[i])
    ensures ContentsOf(s[..i + 1])
            == if s[i].key == EmptyKey then ContentsOf(s[..i]) else ContentsOf(s[..i])[s[i].key := s[i].value]
  {
    var p, q := s[..i], s[..i + 1];
    assert q[..i] == p;
    DistinctPrefix(s, i);
    DistinctPrefix(s, i + 1);
    if s[i].key != EmptyKey {
      forall j | 0 <= j < |p|
        ensures p[j].key != s[i].key
      {
        assert p[j] == s[j];
      }
      AbsentKey(p, s[i].key);
    }
  }

  /** `used_nodes_` is the number of stored keys. */
  lemma {:induction false} CountIsCardinality<V>(s: seq<Node<V>>)
    requires DistinctKeys(s)
    ensures |ContentsOf(s)| == CountUsed(s)
  {
    if |s| == 0 {
      assert ContentsOf(s) == map[];
    } else {
      var n := |s| - 1;
      PrefixStep(s, n);
      assert s[..n + 1] == s;
      CountIsCardinality(s[..n]);
      if s[n].key != EmptyKey {
        var m := ContentsOf(s[..n]);
        assert m[s[n].key := s[n].value].Keys == m.Keys + {s[n].key};
      }
    }
  }
}
