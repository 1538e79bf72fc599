/**
 * Deletion without tombstones: `erase(Iterator)` empties the bucket and then
 * walks the cluster after it, shifting back every key whose probe path
 * crosses the hole, so that every remaining key stays reachable.
 */
module BackwardShift {
  import opened HashTable

  /** Reduces an index below twice the capacity to a bucket, as `test_bucket -= nodes_.size()` does. */
  function Wrap(p: nat, cap: nat): (b: nat)
    requires p < 2 * cap
    ensures b < cap
  {
    if p >= cap then p - cap else p
  }

  /** Every bucket on the first `d` probe steps from `h` is occupied or is `hole`. */
  ghost predicate PathClearExcept<V>(s: seq<Node<V>>, h: nat, d: nat, hole: nat)
    requires h < |s| && d <= |s|
  {
    forall j :: 0 <= j < d ==> s[Slot(h, j, |s|)].key != EmptyKey || Slot(h, j, |s|) == hole
  }

  /** The key in bucket `i` would be reachable if the bucket `hole` were occupied. */
  ghost predicate ReachableAround<V>(s: seq<Node<V>>, hash: Key -> nat, i: nat, hole: nat)
    requires i < |s|
  {
    var h := Home(hash, s[i].key, |s|);
    PathClearExcept(s, h, Dist(h, i, |s|), hole)
  }

  /** Every stored key would be reachable if the bucket `hole` were occupied. */
  ghost predicate ReachableExcept<V>(s: seq<Node<V>>, hash: Key -> nat, hole: nat)
  {
    forall i {:trigger ReachableAround(s, hash, i, hole)} :: 0 <= i < |s| && s[i].key != EmptyKey ==> ReachableAround(s, hash, i, hole)
  }

  /**
   * The keys in the buckets fewer than `width` steps after the hole, which the
   * scan has already decided to keep, have their home bucket after the hole,
   * so their probe paths do not cross it.
   */
  ghost predicate ScannedAfterHole<V>(s: seq<Node<V>>, hash: Key -> nat, hole: nat, width: nat)
    requires hole < |s|
  {
    forall p :: 0 <= p < |s| && 0 < Dist(hole, p, |s|) < width && s[p].key != EmptyKey ==>
      Dist(Home(hash, s[p].key, |s|), p, |s|) < Dist(hole, p, |s|)
  }

  /**
   * The source decides whether to move the key at `test_i` into the hole at
   * `empty_i` by comparing unwrapped indices (`want_i` lifted by the capacity
   * when below `empty_i`). That test holds exactly when the key's home bucket
   * is not in the cyclic range just after the hole up to the key's bucket,
   * that is, when its probe path crosses the hole.
   */
  lemma MoveDecision(cap: nat, e0: nat, emptyI: nat, testI: nat, raw: nat)
    requires e0 < cap && e0 <= emptyI < testI < e0 + cap && raw < cap
    ensures var want := if raw < emptyI then raw + cap else raw;
            (want <= emptyI || want > testI)
            <==> Dist(Wrap(emptyI, cap), Wrap(testI, cap), cap) <= Dist(raw, Wrap(testI, cap), cap)
  {
  }

  /** Emptying an occupied bucket removes its key and leaves the rest reachable around the new hole. */
  lemma ClearBucket<V>(s: seq<Node<V>>, hash: Key -> nat, pos: nat)
    requires Probeable(s, hash) && pos < |s| && s[pos].key != EmptyKey
    ensures var s' := s[pos := s[pos].(key := EmptyKey)];
            && DistinctKeys(s')
            && ReachableExcept(s', hash, pos)
            && ScannedAfterHole(s', hash, pos, 1)
            && ContentsOf(s') == ContentsOf(s) - {s[pos].key}
            && CountUsed(s') + 1 == CountUsed(s)
  {
    var s' := s[pos := s[pos].(key := EmptyKey)];
    var cap := |s|;
    CountUsedUpdate(s, pos, s[pos].(key := EmptyKey));
    assert DistinctKeys(s');
    forall i | 0 <= i < cap && s'[i].key != EmptyKey
      ensures ReachableAround(s', hash, i, pos)
    {
      assert Reachable(s, hash, i);
    }
    var m := ContentsOf(s) - {s[pos].key};
    forall x | x in ContentsOf(s')
      ensures x in m && m[x] == ContentsOf(s')[x]
    {
      var j := ContentsIndex(s', x);
      ContentsAt(s, j);
    }
    forall x | x in m
      ensures x in ContentsOf(s')
    {
      var j := ContentsIndex(s, x);
      ContentsAt(s', j);
    }
  }

  /** Moving an occupied bucket into an empty one keeps the entries and the count. */
  lemma MoveKeepsEntries<V>(s: seq<Node<V>>, hole: nat, test: nat)
    requires hole < |s| && test < |s| && hole != test
    requires s[hole].key == EmptyKey && s[test].key != EmptyKey
    requires DistinctKeys(s)
    ensures var s' := s[hole := s[test]][test := s[test].(key := EmptyKey)];
            && DistinctKeys(s')
            && ContentsOf(s') == ContentsOf(s)
            && CountUsed(s') == CountUsed(s)
  {
    var s1 := s[hole := s[test]];
    var s' := s1[test := s[test].(key := EmptyKey)];
    CountUsedUpdate(s, hole, s[test]);
    CountUsedUpdate(s1, test, s[test].(key := EmptyKey));
    assert DistinctKeys(s');
    forall x | x in ContentsOf(s')
      ensures x in ContentsOf(s) && ContentsOf(s)[x] == ContentsOf(s')[x]
    {
      var j := ContentsIndex(s', x);
      if j == hole {
        ContentsAt(s, test);
      } else {
        ContentsAt(s, j);
      }
    }
    forall x | x in ContentsOf(s)
      ensures x in ContentsOf(s')
    {
      var j := ContentsIndex(s, x);
      if j == test {
        ContentsAt(s', hole);
      } else {
        ContentsAt(s', j);
      }
    }
  }

  /**
   * Moving the key at `test` into the hole, when its probe path crosses the
   * hole, keeps the entries and makes `test` the new hole.
   */
  lemma MoveIntoHole<V>(s: seq<Node<V>>, hash: Key -> nat, hole: nat, test: nat)
    requires hole < |s| && test < |s| && hole != test
    requires s[hole].key == EmptyKey && s[test].key != EmptyKey
    requires DistinctKeys(s) && ReachableExcept(s, hash, hole)
    requires Dist(hole, test, |s|) <= Dist(Home(hash, s[test].key, |s|), test, |s|)
    ensures var s' := s[hole := s[test]][test := s[test].(key := EmptyKey)];
            && DistinctKeys(s')
            && ReachableExcept(s', hash, test)
            && ContentsOf(s') == ContentsOf(s)
            && CountUsed(s') == CountUsed(s)
  {
    var cap := |s|;
    var s' := s[hole := s[test]][test := s[test].(key := EmptyKey)];
    MoveKeepsEntries(s, hole, test);
    var w := Home(hash, s[test].key, cap);
    forall i | 0 <= i < cap && s'[i].key != EmptyKey
      ensures ReachableAround(s', hash, i, test)
    {
      if i == hole {
        assert ReachableAround(s, hash, test, hole);
        SlotDist(w, Dist(w, hole, cap), hole, cap);
        SlotDist(w, Dist(w, test, cap), test, cap);
      } else {
        assert s'[i] == s[i] && ReachableAround(s, hash, i, hole);
      }
    }
  }

  /**
   * When the scan reaches an empty bucket `test`, no key's probe path
   * crosses the hole any more, so the layout is probeable again.
   */
  lemma ScanFinished<V>(s: seq<Node<V>>, hash: Key -> nat, hole: nat, test: nat)
    requires hole < |s| && test < |s| && hole != test
    requires s[hole].key == EmptyKey && s[test].key == EmptyKey
    requires DistinctKeys(s) && ReachableExcept(s, hash, hole)
    requires ScannedAfterHole(s, hash, hole, Dist(hole, test, |s|))
    ensures Probeable(s, hash)
  {
    var cap := |s|;
    forall i | 0 <= i < cap && s[i].key != EmptyKey
      ensures Reachable(s, hash, i)
    {
      var h := Home(hash, s[i].key, cap);
      var d := Dist(h, i, cap);
      var dHole, dTest := Dist(h, hole, cap), Dist(h, test, cap);
      var wHole, wTest := Dist(hole, i, cap), Dist(hole, test, cap);
      SlotDist(h, dHole, hole, cap);
      SlotDist(h, dTest, test, cap);
      assert ReachableAround(s, hash, i, hole);
      forall j | 0 <= j < d
        ensures s[Slot(h, j, cap)].key != EmptyKey
      {
        SlotDist(h, j, hole, cap);
      }
    }
  }

  /**
   * The state of the scan in `erase(Iterator)` after bucket `pos` of `orig`
   * was emptied: the hole is at unwrapped index `emptyI`, the next bucket to
   * test at `testI`, and `e` is a bucket that was empty before the erase,
   * which bounds the scan. The entries are those of `orig` without the
   * erased key.
   */
  ghost predicate ScanState<V>(orig: seq<Node<V>>, hash: Key -> nat, pos: nat, e: nat,
                               nodes: seq<Node<V>>, emptyI: nat, emptyBucket: nat, testI: nat)
  {
    var cap := |orig|;
    && pos < cap && e < cap && |nodes| == cap
    && DistinctKeys(orig) && orig[pos].key != EmptyKey
    && pos <= emptyI < testI <= pos + Dist(pos, e, cap)
    && emptyBucket == Wrap(emptyI, cap)
    && nodes[emptyBucket].key == EmptyKey && nodes[e].key == EmptyKey
    && DistinctKeys(nodes)
    && ContentsOf(nodes) == ContentsOf(orig) - {orig[pos].key}
    && ReachableExcept(nodes, hash, emptyBucket)
    && ScannedAfterHole(nodes, hash, emptyBucket, testI - emptyI)
  }

  /** The bucket under test lies `testI - emptyI` steps after the hole. */
  lemma TestBucket<V>(orig: seq<Node<V>>, hash: Key -> nat, pos: nat, e: nat,
                      nodes: seq<Node<V>>, emptyI: nat, emptyBucket: nat, testI: nat)
    requires ScanState(orig, hash, pos, e, nodes, emptyI, emptyBucket, testI)
    ensures testI < 2 * |orig|
    ensures var testBucket := Wrap(testI, |orig|);
            && testBucket != emptyBucket
            && Dist(emptyBucket, testBucket, |orig|) == testI - emptyI
            && (nodes[testBucket].key != EmptyKey ==> testI < pos + Dist(pos, e, |orig|))
  {
    var cap := |orig|;
    SlotDist(pos, testI - pos, e, cap);
  }

  /** Keeping the key under test (its home is after the hole) widens the scanned range. */
  lemma ScanKeep<V>(orig: seq<Node<V>>, hash: Key -> nat, pos: nat, e: nat,
                    nodes: seq<Node<V>>, emptyI: nat, emptyBucket: nat, testI: nat)
    requires ScanState(orig, hash, pos, e, nodes, emptyI, emptyBucket, testI)
    requires testI < 2 * |orig| && nodes[Wrap(testI, |orig|)].key != EmptyKey
    requires var testBucket := Wrap(testI, |orig|);
             Dist(Home(hash, nodes[testBucket].key, |orig|), testBucket, |orig|) < Dist(emptyBucket, testBucket, |orig|)
    ensures ScanState(orig, hash, pos, e, nodes, emptyI, emptyBucket, testI + 1)
  {
    TestBucket(orig, hash, pos, e, nodes, emptyI, emptyBucket, testI);
  }

  /** Moving the key under test into the hole makes its bucket the new hole. */
  lemma ScanMove<V>(orig: seq<Node<V>>, hash: Key -> nat, pos: nat, e: nat,
                    nodes: seq<Node<V>>, emptyI: nat, emptyBucket: nat, testI: nat)
    requires ScanState(orig, hash, pos, e, nodes, emptyI, emptyBucket, testI)
    requires testI < 2 * |orig| && nodes[Wrap(testI, |orig|)].key != EmptyKey
    requires var testBucket := Wrap(testI, |orig|);
             Dist(emptyBucket, testBucket, |orig|) <= Dist(Home(hash, nodes[testBucket].key, |orig|), testBucket, |orig|)
    ensures var testBucket := Wrap(testI, |orig|);
            var nodes' := nodes[emptyBucket := nodes[testBucket]][testBucket := nodes[testBucket].(key := EmptyKey)];
            && ScanState(orig, hash, pos, e, nodes', testI, testBucket, testI + 1)
            && CountUsed(nodes') == CountUsed(nodes)
  {
    var cap := |orig|;
    var testBucket := Wrap(testI, cap);
    TestBucket(orig, hash, pos, e, nodes, emptyI, emptyBucket, testI);
    MoveIntoHole(nodes, hash, emptyBucket, testBucket);
    var nodes' := nodes[emptyBucket := nodes[testBucket]][testBucket := nodes[testBucket].(key := EmptyKey)];
    SlotDist(pos, emptyI - pos, e, cap);
    assert nodes'[e].key == EmptyKey;
  }

  /** The scan starts with the hole at `pos` and nothing scanned. */
  lemma ScanStart<V>(orig: seq<Node<V>>, hash: Key -> nat, pos: nat, e: nat)
    requires Probeable(orig, hash) && pos < |orig| && orig[pos].key != EmptyKey
    requires e < |orig| && orig[e].key == EmptyKey
    ensures var nodes := orig[pos := orig[pos].(key := EmptyKey)];
            && ScanState(orig, hash, pos, e, nodes, pos, pos, pos + 1)
            && CountUsed(nodes) + 1 == CountUsed(orig)
  {
    ClearBucket(orig, hash, pos);
    SlotDist(pos, 0, e, |orig|);
  }

  /**
   * `erase(Iterator)`: empty bucket `pos`, then scan forward from it until an
   * empty bucket, moving back each key whose probe path crosses the current
   * hole. The indices `emptyI`, `testI` and `want` are the source's
   * `empty_i`, `test_i` and `want_i`, which count past the end of the vector
   * instead of wrapping.
   */
  method EraseAt<V>(t: Table<V>, pos: nat) returns (t': Table<V>)
    requires Valid(t) && pos < |t.nodes| && t.nodes[pos].key != EmptyKey
    ensures Valid(t')
    ensures Contents(t') == Contents(t) - {t.nodes[pos].key}
    ensures t'.used + 1 == t.used
    ensures |t'.nodes| == |t.nodes| && t'.hash == t.hash && t'.defaultValue == t.defaultValue
  {
    var cap := |t.nodes|;
    ghost var e := LoadFactorLeavesEmptyBucket(t);
    ScanStart(t.nodes, t.hash, pos, e);

    var nodes := t.nodes;
    var emptyI := pos;
    var emptyBucket := emptyI;
    nodes := nodes[emptyBucket := nodes[emptyBucket].(key := EmptyKey)];
    var used := t.used - 1;

    var testI := emptyI + 1;
    while true
      invariant ScanState(t.nodes, t.hash, pos, e, nodes, emptyI, emptyBucket, testI)
      invariant CountUsed(nodes) == used
      decreases pos + Dist(pos, e, cap) - testI
    {
      TestBucket(t.nodes, t.hash, pos, e, nodes, emptyI, emptyBucket, testI);
      var testBucket := testI;
      if testBucket >= cap {
        testBucket := testBucket - cap;
      }
      if nodes[testBucket].key == EmptyKey {
        ScanFinished(nodes, t.hash, emptyBucket, testBucket);
        break;
      }

      var raw := t.hash(nodes[testBucket].key) % cap;
      var want := raw;
      if want < emptyI {
        want := want + cap;
      }
      MoveDecision(cap, pos, emptyI, testI, raw);
      if want <= emptyI || want > testI {
        ScanMove(t.nodes, t.hash, pos, e, nodes, emptyI, emptyBucket, testI);
        nodes := nodes[emptyBucket := nodes[testBucket]][testBucket := nodes[testBucket].(key := EmptyKey)];
        emptyI := testI;
        emptyBucket := testBucket;
      } else {
        ScanKeep(t.nodes, t.hash, pos, e, nodes, emptyI, emptyBucket, testI);
      }
      testI := testI + 1;
    }
    t' := t.(nodes := nodes, used := used);
  }
}
