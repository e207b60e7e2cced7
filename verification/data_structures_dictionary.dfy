/** `DataStructures.MyDictionary<TKey, TValue>`: a hash table of bucket heads,
    each the start of a singly linked chain of `DictionaryEntry` nodes.

    A chain is modelled as the sequence of its nodes' bindings from the
    bucket head along `NextEntry`, so "the node before" is the previous
    position and unlinking a node deletes its position. The
    key comparer's `Equals` is Dafny equality on keys and its `GetHashCode`
    is the function `getHashCode`. */
module DataStructuresDictionary {
  import opened Common
  import opened EntryMaps
  import opened BucketChains

  /** `MyDictionary.c_defaultInitialCapacity`. */
  const DefaultInitialCapacity: nat := 5

  /** The bucket array `m_buckets`, `m_count` and the comparer's hash. */
  datatype Dictionary<!K, V> = Dictionary(buckets: seq<Chain<K, V>>, count: nat, getHashCode: K -> int)

  /** Where `FindEntryForKey` found the key: the bucket, and the position of
      the node in its chain, if any. */
  datatype FindResult = FindResult(bucketIndex: nat, entry: Option<nat>)
  {
    /** The node linking to the found one; `None` when it is the bucket head. */
    function PrecedingEntry(): (p: Option<nat>)
      requires entry.Some?
      ensures p.Some? <==> entry.value > 0
      ensures p.Some? ==> p.value + 1 == entry.value
    {
      if entry.value == 0 then None else Some(entry.value - 1)
    }
  }

  // ---------------------------------------------------------------------
  // The abstract view and the table invariant
  // ---------------------------------------------------------------------

  /** The dictionary's invariant: nodes are placed by hash, keys are unique,
      `m_count` counts the reachable nodes, and since `Add` grows the table
      whenever `m_count` reaches the bucket count, it never exceeds it. */
  ghost predicate Valid<K, V>(d: Dictionary<K, V>)
  {
    && Placed(d.buckets, d.getHashCode)
    && DistinctKeys(d.buckets)
    && d.count == TotalLength(d.buckets)
    && d.count <= |d.buckets|
  }

  /** The map a valid dictionary stores. */
  ghost function Map<K, V>(d: Dictionary<K, V>): map<K, V>
    requires Valid(d)
  {
    TableMap(d.buckets, d.getHashCode)
  }

  // ---------------------------------------------------------------------
  // Operations
  // ---------------------------------------------------------------------

  /** The constructor: `initialCapacity ?? 5` empty buckets and
      `comparer ?? EqualityComparer<TKey>.Default`; a negative capacity makes
      the array allocation throw `OverflowException`. */
  function Create<K, V>(comparer: Option<K -> int>, initialCapacity: Option<int>, defaultComparer: K -> int): (r: Result<Dictionary<K, V>>)
    ensures r.Err? <==> initialCapacity.Some? && initialCapacity.value < 0
    ensures r.Err? ==> r.error == Overflow
    ensures r.Ok? ==> Valid(r.value) && Map(r.value) == map[] && r.value.count == 0
    ensures r.Ok? ==> |r.value.buckets| == (if initialCapacity.Some? then initialCapacity.value else DefaultInitialCapacity)
    ensures r.Ok? ==> r.value.getHashCode == (if comparer.Some? then comparer.value else defaultComparer)
  {
    var capacity := if initialCapacity.Some? then initialCapacity.value else DefaultInitialCapacity as int;
    if capacity < 0 then Err(Overflow)
    else
      var hash := if comparer.Some? then comparer.value else defaultComparer;
      var d := Dictionary(EmptyBuckets(capacity), 0, hash);
      EmptyBucketsHoldNothing<K, V>(capacity);
      assert KeysOf(Entries(d.buckets)) == {};
      Ok(d)
  }

  /** `Math.Abs(GetHashCode(key) % BucketCount)`: with no buckets the
      remainder throws `DivideByZeroException`. */
  function GetBucketIndex<K, V>(d: Dictionary<K, V>, key: K): (r: Result<nat>)
    ensures r.Err? <==> |d.buckets| == 0
    ensures r.Err? ==> r.error == DivideByZero
    ensures r.Ok? ==> r.value < |d.buckets| && r.value == Abs(CsRem(d.getHashCode(key), |d.buckets|))
  {
    if |d.buckets| == 0 then Err(DivideByZero)
    else Ok(BucketIndex(d.getHashCode(key), |d.buckets|))
  }

  /** Walks the chain the key hashes to and reports the first node holding it. */
  method FindEntryForKey<K(==), V>(d: Dictionary<K, V>, key: K) returns (r: Result<FindResult>)
    ensures r.Err? <==> |d.buckets| == 0
    ensures r.Err? ==> r.error == DivideByZero
    ensures r.Ok? ==> r.value.bucketIndex == BucketIndex(d.getHashCode(key), |d.buckets|)
    ensures r.Ok? && r.value.entry.Some? ==>
              var c := d.buckets[r.value.bucketIndex];
              && r.value.entry.value < |c|
              && c[r.value.entry.value].key == key
              && forall j :: 0 <= j < r.value.entry.value ==> c[j].key != key
    ensures r.Ok? && r.value.entry.None? ==>
              var c := d.buckets[r.value.bucketIndex];
              forall j :: 0 <= j < |c| ==> c[j].key != key
  {
    var bucketIndex := GetBucketIndex(d, key);
    if bucketIndex.Err? {
      return Err(bucketIndex.error);
    }
    var chain := d.buckets[bucketIndex.value];
    var current := 0;
    while current < |chain|
      invariant current <= |chain|
      invariant forall j :: 0 <= j < current ==> chain[j].key != key
    {
      if chain[current].key == key {
        return Ok(FindResult(bucketIndex.value, Some(current)));
      }
      current := current + 1;
    }
    return Ok(FindResult(bucketIndex.value, None));
  }

  /** Moves every node, bucket by bucket and head first, to the front of its
      chain in a table of `2 * BucketCount + 1` buckets. */
  method Resize<K, V>(d: Dictionary<K, V>) returns (r: Dictionary<K, V>)
    requires Valid(d)
    ensures |r.buckets| == 2 * |d.buckets| + 1
    ensures r.count == d.count && r.getHashCode == d.getHashCode
    ensures Placed(r.buckets, r.getHashCode) && DistinctKeys(r.buckets) && r.count == TotalLength(r.buckets)
    ensures Entries(r.buckets) == Entries(d.buckets)
  {
    var oldEntries := d.buckets;
    var hash := d.getHashCode;
    var nextSize := |oldEntries| * 2 + 1;
    var buckets: seq<Chain<K, V>> := EmptyBuckets(nextSize);
    EmptyBucketsHoldNothing<K, V>(nextSize);
    var i := 0;
    while i < |oldEntries|
      invariant i <= |oldEntries|
      invariant |buckets| == nextSize
      invariant Placed(buckets, hash) && DistinctKeys(buckets)
      invariant Entries(buckets) == Processed(oldEntries, i, 0)
      invariant TotalLength(buckets) == TotalLength(oldEntries[..i])
    {
      var chain := oldEntries[i];
      var j := 0;
      while j < |chain|
        invariant j <= |chain|
        invariant |buckets| == nextSize
        invariant Placed(buckets, hash) && DistinctKeys(buckets)
        invariant Entries(buckets) == Processed(oldEntries, i, j)
        invariant TotalLength(buckets) == TotalLength(oldEntries[..i]) + j
      {
        var entry := chain[j];
        var newBucketIndex := BucketIndex(hash(entry.key), nextSize);
        NextKeyFresh(oldEntries, hash, i, j);
        PrependKeepsShape(buckets, hash, entry);
        PrependEntries(buckets, newBucketIndex, entry);
        ProcessedNext(oldEntries, i, j);
        buckets := buckets[newBucketIndex := [entry] + buckets[newBucketIndex]];
        j := j + 1;
      }
      ProcessedChainDone(oldEntries, i);
      assert oldEntries[..i + 1][..i] == oldEntries[..i];
      i := i + 1;
    }
    ProcessedAll(oldEntries);
    assert oldEntries[..i] == oldEntries;
    r := Dictionary(buckets, d.count, hash);
  }

  /** Adds a new binding, growing the table first when it is full; a key
      already present throws `ArgumentException` for parameter `key`, after
      any growth has happened. `r` is the dictionary after the call. */
  method Add<K(==), V>(d: Dictionary<K, V>, key: K, value: V) returns (r: Dictionary<K, V>, thrown: Option<Error>)
    requires Valid(d)
    ensures Valid(r)
    ensures thrown.Some? <==> key in Map(d)
    ensures thrown.Some? ==> thrown.value == Argument("key") && Map(r) == Map(d) && r.count == d.count
    ensures thrown.None? ==> Map(r) == Map(d)[key := value] && r.count == d.count + 1
    ensures |r.buckets| == if d.count == |d.buckets| then 2 * |d.buckets| + 1 else |d.buckets|
  {
    r := d;
    if d.count == |d.buckets| {
      r := Resize(d);
    }
    PlacedUnique(r.buckets, r.getHashCode);
    var result := FindEntryForKey(r, key);
    var bucketIndex := result.value.bucketIndex;
    if result.value.entry.Some? {
      var c := r.buckets[bucketIndex];
      assert Pair(c[result.value.entry.value]) in Entries(r.buckets);
      return r, Some(Argument("key"));
    }
    AbsentFromBucket(r.buckets, r.getHashCode, key);
    var entry := Binding(key, value);
    PrependKeepsShape(r.buckets, r.getHashCode, entry);
    PrependEntries(r.buckets, bucketIndex, entry);
    ToMapInsert(Entries(r.buckets), key, value);
    r := r.(buckets := r.buckets[bucketIndex := [entry] + r.buckets[bucketIndex]], count := r.count + 1);
    thrown := None;
  }

  /** Unlinks the node holding `key`, from the bucket head or from the node
      before it, and reports whether there was one. With no buckets (a
      dictionary created with capacity 0 and never added to) the C# code throws
      `DivideByZeroException` from `GetBucketIndex`; this model returns `false`
      and the dictionary unchanged, as for any absent key. */
  method Remove<K(==), V>(d: Dictionary<K, V>, key: K) returns (r: Dictionary<K, V>, removed: bool)
    requires Valid(d)
    ensures Valid(r)
    ensures removed <==> key in Map(d)
    ensures Map(r) == Map(d) - {key}
    ensures r.count == if removed then d.count - 1 else d.count
    ensures |r.buckets| == |d.buckets|
  {
    PlacedUnique(d.buckets, d.getHashCode);
    if |d.buckets| == 0 {
      assert Entries(d.buckets) == {};
      return d, false;
    }
    var result := FindEntryForKey(d, key);
    var bucketIndex := result.value.bucketIndex;
    if result.value.entry.None? {
      AbsentFromBucket(d.buckets, d.getHashCode, key);
      return d, false;
    }
    var p := result.value.entry.value;
    var chain := d.buckets[bucketIndex];
    var toRemove := chain[p];
    var next := chain[p + 1..];
    var newChain := if result.value.PrecedingEntry().None? then next else chain[..p] + next;
    assert newChain == chain[..p] + chain[p + 1..];
    UnlinkEntries(d.buckets, d.getHashCode, bucketIndex, p);
    UnlinkKeepsShape(d.buckets, d.getHashCode, bucketIndex, p);
    ToMapRemove(Entries(d.buckets), Pair(toRemove));
    r := d.(buckets := d.buckets[bucketIndex := newChain], count := d.count - 1);
    removed := true;
  }

  /** The value bound to `key`, or `default(TValue)` and `false`. With no
      buckets (a dictionary created with capacity 0 and never added to) the C#
      code throws `DivideByZeroException` from `GetBucketIndex`; this model
      reports the key absent and returns `default(TValue)`. */
  method TryGetValue<K(==), V>(d: Dictionary<K, V>, key: K, defaultValue: V) returns (found: bool, value: V)
    requires Valid(d)
    ensures found <==> key in Map(d)
    ensures found ==> value == Map(d)[key]
    ensures !found ==> value == defaultValue
  {
    PlacedUnique(d.buckets, d.getHashCode);
    if |d.buckets| == 0 {
      assert Entries(d.buckets) == {};
      return false, defaultValue;
    }
    var result := FindEntryForKey(d, key);
    if result.value.entry.Some? {
      var entry := d.buckets[result.value.bucketIndex][result.value.entry.value];
      assert Pair(entry) in Entries(d.buckets);
      return true, entry.value;
    }
    AbsentFromBucket(d.buckets, d.getHashCode, key);
    return false, defaultValue;
  }

  /** Adds the pairs in order, as the lookup tests do for every permutation
      of their entries: when the keys are distinct and new, no `Add` throws
      and each key ends up bound to its own value, whatever the order. */
  method AddEach<K(==), V>(d: Dictionary<K, V>, pairs: seq<(K, V)>) returns (r: Dictionary<K, V>)
    requires Valid(d) && DistinctFirsts(pairs)
    requires forall i :: 0 <= i < |pairs| ==> pairs[i].0 !in Map(d)
    ensures Valid(r) && r.count == d.count + |pairs|
    ensures forall i :: 0 <= i < |pairs| ==> pairs[i].0 in Map(r) && Map(r)[pairs[i].0] == pairs[i].1
    ensures forall k :: k in Map(d) ==> k in Map(r) && Map(r)[k] == Map(d)[k]
  {
    r := d;
    ghost var m := Map(d);
    var i := 0;
    while i < |pairs|
      invariant i <= |pairs| && Valid(r) && Map(r) == m && r.count == d.count + i
      invariant AddedSoFar(Map(d), m, pairs, i)
    {
      var thrown;
      r, thrown := Add(r, pairs[i].0, pairs[i].1);
      assert thrown.None?;
      AddedNext(Map(d), m, pairs, i);
      m := m[pairs[i].0 := pairs[i].1];
      i := i + 1;
    }
  }

  /** No key occurs in two of the pairs. */
  predicate DistinctFirsts<K(==), V>(pairs: seq<(K, V)>)
  {
    forall i, j :: 0 <= i < j < |pairs| ==> pairs[i].0 != pairs[j].0
  }

  /** `m` is `m0` with the first `i` pairs added and the rest still absent. */
  ghost predicate AddedSoFar<K, V>(m0: map<K, V>, m: map<K, V>, pairs: seq<(K, V)>, i: nat)
  {
    && i <= |pairs|
    && (forall j :: 0 <= j < i ==> pairs[j].0 in m && m[pairs[j].0] == pairs[j].1)
    && (forall j :: i <= j < |pairs| ==> pairs[j].0 !in m)
    && (forall k :: k in m0 ==> k in m && m[k] == m0[k])
  }

  /** Binding the next pair's key extends what has been added by one pair. */
  lemma AddedNext<K, V>(m0: map<K, V>, m: map<K, V>, pairs: seq<(K, V)>, i: nat)
    requires DistinctFirsts(pairs) && i < |pairs| && AddedSoFar(m0, m, pairs, i)
    ensures pairs[i].0 !in m
    ensures AddedSoFar(m0, m[pairs[i].0 := pairs[i].1], pairs, i + 1)
  {
    var m' := m[pairs[i].0 := pairs[i].1];
    forall j | 0 <= j < i
      ensures pairs[j].0 in m' && m'[pairs[j].0] == pairs[j].1
    {
      assert pairs[j].0 != pairs[i].0;
    }
    forall j | i + 1 <= j < |pairs|
      ensures pairs[j].0 !in m'
    {
      assert pairs[i].0 != pairs[j].0;
    }
  }

  /** The removal test: removing a present key reports it, after which the
      key is not found and removing it again reports nothing. */
  method RemoveTwice<K(==), V>(d: Dictionary<K, V>, key: K, defaultValue: V)
    returns (first: bool, found: bool, value: V, second: bool)
    requires Valid(d)
    ensures first <==> key in Map(d)
    ensures !found && value == defaultValue
    ensures !second
  {
    var r;
    r, first := Remove(d, key);
    found, value := TryGetValue(r, key, defaultValue);
    r, second := Remove(r, key);
  }

  /** The negative hash test: with every hash code −1 the keys share one
      valid bucket and each is still found with its own value. */
  method NegativeHashLookups() returns (found1: bool, value1: int, found2: bool, value2: int)
    ensures found1 && value1 == 1
    ensures found2 && value2 == 2
  {
    var created := Create<int, int>(Some((k: int) => -1), None, (k: int) => k);
    var d := created.value;
    var thrown;
    d, thrown := Add(d, 1, 1);
    found1, value1 := TryGetValue(d, 1, 0);
    d, thrown := Add(d, 2, 2);
    found2, value2 := TryGetValue(d, 2, 0);
  }

  /** On a dictionary created with capacity 0, looking up any key before the
      first `Add` throws `DivideByZeroException`, although it holds nothing. */
  lemma ZeroCapacityLookupThrows<K, V>(hash: K -> int, key: K)
    ensures var d := Create<K, V>(None, Some(0), hash);
            && d.Ok? && Map(d.value) == map[]
            && GetBucketIndex(d.value, key) == Err(DivideByZero)
  {
  }
}
