/**
 * The public operations of `FlatHashMapImpl`, each stated against the
 * key-to-value map the buckets represent.
 */
module FlatHashMap {
  import opened Wrappers
  import opened HashTable
  import Probe
  import BackwardShift

  /** A default-constructed map: no buckets and no entries. */
  function New<V>(hash: Key -> nat, defaultValue: V): (t: Table<V>)
    ensures Valid(t) && Contents(t) == map[] && Size(t) == 0
    ensures t.hash == hash && t.defaultValue == defaultValue
  {
    Table([], 0, hash, defaultValue)
  }

  /** `size()`: the number of stored keys. */
  function Size<V>(t: Table<V>): (n: nat)
    requires Valid(t)
    ensures n == |Contents(t)|
  {
    CountIsCardinality(t.nodes);
    t.used
  }

  /**
   * `should_resize()`: one more key would push the load factor above 0.6.
   * An unallocated table always needs to grow; when no growth is needed, one
   * more key still leaves an empty bucket for probing to stop at.
   */
  function ShouldResize<V>(t: Table<V>): (r: bool)
    ensures |t.nodes| == 0 ==> r
    ensures !r ==> t.used + 1 < |t.nodes|
  {
    (t.used + 1) * 10 > |t.nodes| * 6
  }

  function Max(a: nat, b: nat): nat
  {
    if a < b then b else a
  }

  /**
   * `resize(size)`: allocate `max(old capacity, size) * 2 + 1` empty buckets
   * and re-insert every stored node by probing. The mapping is kept exactly.
   */
  method Resize<V>(t: Table<V>, size: nat) returns (t': Table<V>)
    requires Valid(t)
    ensures Valid(t')
    ensures |t'.nodes| == Max(|t.nodes|, size) * 2 + 1
    ensures Contents(t') == Contents(t)
    ensures t'.used == t.used && t'.hash == t.hash && t'.defaultValue == t.defaultValue
  {
    var oldNodes := t.nodes;
    var cap := Max(|oldNodes|, size) * 2 + 1;
    var nodes := seq(cap, _ => Node(EmptyKey, t.defaultValue));
    AllEmpty(nodes, t.hash);
    var i := 0;
    while i < |oldNodes|
      invariant i <= |oldNodes| && |nodes| == cap
      invariant Probeable(nodes, t.hash)
      invariant DistinctKeys(oldNodes[..i])
      invariant ContentsOf(nodes) == ContentsOf(oldNodes[..i])
      invariant CountUsed(nodes) == CountUsed(oldNodes[..i]) <= i
    {
      PrefixStep(oldNodes, i);
      if oldNodes[i].key != EmptyKey {
        var b := Probe.FindBucketForInsert(nodes, t.hash, oldNodes[i].key);
        Probe.PlaceInEmpty(nodes, t.hash, b, oldNodes[i].key, oldNodes[i].value);
        nodes := nodes[b := oldNodes[i]];
      }
      i := i + 1;
    }
    assert oldNodes[..i] == oldNodes;
    t' := t.(nodes := nodes);
  }

  /**
   * `find(key)`: an empty map answers `end()` (here `None`) without probing;
   * otherwise the probe's bucket is returned when it is occupied.
   */
  method Find<V>(t: Table<V>, k: Key) returns (r: Option<nat>)
    requires Valid(t)
    ensures t.used == 0 ==> r == None
    ensures r.None? <==> k !in Contents(t)
    ensures r.Some? ==> r.value < |t.nodes| && t.nodes[r.value] == Node(k, Contents(t)[k])
  {
    if t.used == 0 {
      CountIsCardinality(t.nodes);
      return None;
    }
    var b := Probe.FindBucketForInsert(t.nodes, t.hash, k);
    if t.nodes[b].key == EmptyKey {
      return None;
    }
    ContentsAt(t.nodes, b);
    r := Some(b);
  }

  /** `count(key)`: 1 when the key is stored, 0 otherwise. */
  method Count<V>(t: Table<V>, k: Key) returns (c: nat)
    requires Valid(t)
    ensures c <= 1
    ensures c == 1 <==> k in Contents(t)
  {
    var r := Find(t, k);
    c := if r.Some? then 1 else 0;
  }

  /**
   * Shared first step of `emplace` and `operator[]`: grow when one more key
   * would exceed the load factor, then probe. Afterwards one more key fits
   * within the load factor.
   */
  method Prepare<V>(t: Table<V>, k: Key) returns (t': Table<V>, b: nat)
    requires Valid(t)
    ensures Valid(t') && Contents(t') == Contents(t)
    ensures t'.used == t.used && t'.hash == t.hash && t'.defaultValue == t.defaultValue
    ensures |t'.nodes| == if ShouldResize(t) then Max(|t.nodes|, t.used + 1) * 2 + 1 else |t.nodes|
    ensures (t'.used + 1) * 10 <= |t'.nodes| * 6
    ensures b < |t'.nodes|
    ensures t'.nodes[b].key == k || t'.nodes[b].key == EmptyKey
    ensures t'.nodes[b].key != EmptyKey <==> k in Contents(t)
    ensures ProbePathClear(t'.nodes, Home(t.hash, k, |t'.nodes|), Dist(Home(t.hash, k, |t'.nodes|), b, |t'.nodes|))
  {
    t' := t;
    if ShouldResize(t) {
      t' := Resize(t, t.used + 1);
    }
    b := Probe.FindBucketForInsert(t'.nodes, t'.hash, k);
  }

  /**
   * `emplace(key, value)`: when `k` is absent, store `v` and report `true`;
   * when present, keep the stored value and report `false`. `pos` is the
   * bucket the returned iterator designates.
   */
  method Emplace<V>(t: Table<V>, k: Key, v: V) returns (t': Table<V>, pos: nat, inserted: bool)
    requires Valid(t)
    requires k != EmptyKey
    ensures Valid(t')
    ensures inserted <==> k !in Contents(t)
    ensures Contents(t') == if inserted then Contents(t)[k := v] else Contents(t)
    ensures Size(t') == if inserted then Size(t) + 1 else Size(t)
    ensures Size(t') * 10 <= |t'.nodes| * 6 && Size(t') < |t'.nodes|
    ensures pos < |t'.nodes| && t'.nodes[pos] == Node(k, Contents(t')[k])
    ensures |t'.nodes| == if ShouldResize(t) then Max(|t.nodes|, t.used + 1) * 2 + 1 else |t.nodes|
    ensures t'.hash == t.hash && t'.defaultValue == t.defaultValue
  {
    var t1, b := Prepare(t, k);
    if t1.nodes[b].key == EmptyKey {
      Probe.PlaceInEmpty(t1.nodes, t1.hash, b, k, v);
      t' := t1.(nodes := t1.nodes[b := Node(k, v)], used := t1.used + 1);
      ContentsAt(t'.nodes, b);
      return t', b, true;
    }
    ContentsAt(t1.nodes, b);
    return t1, b, false;
  }

  /**
   * `operator[](key)`: the bucket holding `k`, after inserting `ValueT()`
   * when `k` is absent. The source returns a reference into that bucket;
   * here `pos` is the bucket and `v` its value, and a write through the
   * reference is `WriteAt`. Like `emplace`, it may grow the table even when
   * `k` is present.
   */
  method Index<V>(t: Table<V>, k: Key) returns (t': Table<V>, pos: nat, v: V)
    requires Valid(t)
    requires k != EmptyKey
    ensures Valid(t')
    ensures k in Contents(t) ==> v == Contents(t)[k] && Contents(t') == Contents(t) && Size(t') == Size(t)
    ensures k !in Contents(t) ==> v == t.defaultValue && Contents(t') == Contents(t)[k := v] && Size(t') == Size(t) + 1
    ensures pos < |t'.nodes| && t'.nodes[pos] == Node(k, v)
    ensures k in Contents(t') && Contents(t')[k] == v
    ensures Size(t') * 10 <= |t'.nodes| * 6 && Size(t') < |t'.nodes|
    ensures |t'.nodes| == if ShouldResize(t) then Max(|t.nodes|, t.used + 1) * 2 + 1 else |t.nodes|
    ensures t'.hash == t.hash && t'.defaultValue == t.defaultValue
  {
    var t1, b := Prepare(t, k);
    if t1.nodes[b].key == EmptyKey {
      Probe.PlaceInEmpty(t1.nodes, t1.hash, b, k, t.defaultValue);
      t' := t1.(nodes := t1.nodes[b := Node(k, t.defaultValue)], used := t1.used + 1);
    } else {
      t' := t1;
    }
    ContentsAt(t'.nodes, b);
    pos := b;
    v := t'.nodes[b].value;
  }

  /**
   * Assigning through the reference that `operator[]` or an iterator yields:
   * the value in occupied bucket `pos` becomes `w`. Only that key's value
   * changes; the layout, the keys and the size stay.
   */
  function WriteAt<V>(t: Table<V>, pos: nat, w: V): (t': Table<V>)
    requires Valid(t) && pos < |t.nodes| && t.nodes[pos].key != EmptyKey
    ensures Valid(t')
    ensures Contents(t') == Contents(t)[t.nodes[pos].key := w]
    ensures t'.used == t.used && |t'.nodes| == |t.nodes|
    ensures forall i :: 0 <= i < |t.nodes| ==> t'.nodes[i].key == t.nodes[i].key
    ensures t'.hash == t.hash && t'.defaultValue == t.defaultValue
  {
    var t' := t.(nodes := t.nodes[pos := t.nodes[pos].(value := w)]);
    ReplaceValue(t.nodes, t.hash, pos, w);
    t'
  }

  /**
   * `erase(key)`: 0 and no change when `k` is absent; otherwise the entry is
   * removed by backward shift and the result is 1.
   */
  method EraseKey<V>(t: Table<V>, k: Key) returns (t': Table<V>, n: nat)
    requires Valid(t)
    ensures Valid(t')
    ensures n == if k in Contents(t) then 1 else 0
    ensures Contents(t') == Contents(t) - {k}
    ensures Size(t') + n == Size(t)
    ensures n == 0 ==> t'.nodes == t.nodes && t'.used == t.used
    ensures |t'.nodes| == |t.nodes| && t'.hash == t.hash && t'.defaultValue == t.defaultValue
  {
    var r := Find(t, k);
    if r.None? {
      return t, 0;
    }
    EmptyKeyAbsent(t.nodes);
    t' := BackwardShift.EraseAt(t, r.value);
    n := 1;
  }

  /** `clear()`: drop every bucket; the map is empty. */
  function Clear<V>(t: Table<V>): (t': Table<V>)
    ensures Valid(t') && Contents(t') == map[] && Size(t') == 0
    ensures t'.hash == t.hash && t'.defaultValue == t.defaultValue
  {
    t.(nodes := [], used := 0)
  }
}
