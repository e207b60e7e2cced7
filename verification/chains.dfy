/** A hash table as a sequence of buckets, each a chain of key/value
    bindings in link order, head first; both dictionaries are read this way.
    The lemmas describe what linking and unlinking a node does to the pairs
    the table stores and to its invariant. */
module BucketChains {
  import opened Common
  import opened EntryMaps

  /** A stored key and value, without the link to the next node. */
  datatype Binding<K, V> = Binding(key: K, value: V)

  /** The bindings reachable from one bucket head, head first. */
  type Chain<K, V> = seq<Binding<K, V>>

  function Pair<K, V>(e: Binding<K, V>): (K, V)
  {
    (e.key, e.value)
  }

  /** Every (key, value) stored in some chain. */
  ghost function Entries<K, V>(buckets: seq<Chain<K, V>>): set<(K, V)>
  {
    set i, j | 0 <= i < |buckets| && 0 <= j < |buckets[i]| :: Pair(buckets[i][j])
  }

  /** The number of nodes reachable from the bucket heads. */
  function TotalLength<K, V>(buckets: seq<Chain<K, V>>): nat
  {
    if |buckets| == 0 then 0 else TotalLength(buckets[..|buckets| - 1]) + |buckets[|buckets| - 1]|
  }

  /** Every node sits in the bucket its key hashes to. */
  ghost predicate Placed<K, V>(buckets: seq<Chain<K, V>>, hash: K -> int)
  {
    forall i, j :: 0 <= i < |buckets| && 0 <= j < |buckets[i]| ==> BucketIndex(hash(buckets[i][j].key), |buckets|) == i
  }

  /** No chain holds a key twice. */
  ghost predicate DistinctKeys<K, V>(buckets: seq<Chain<K, V>>)
  {
    forall i, a, b :: 0 <= i < |buckets| && 0 <= a < b < |buckets[i]| ==> buckets[i][a].key != buckets[i][b].key
  }

  /** Placement and distinct chains make keys unique across the whole table. */
  lemma PlacedUnique<K, V>(buckets: seq<Chain<K, V>>, hash: K -> int)
    requires Placed(buckets, hash) && DistinctKeys(buckets)
    ensures UniqueKeys(Entries(buckets))
  {
    forall a, b | a in Entries(buckets) && b in Entries(buckets) && a.0 == b.0
      ensures a == b
    {
      var i, j :| 0 <= i < |buckets| && 0 <= j < |buckets[i]| && a == Pair(buckets[i][j]);
      var i', j' :| 0 <= i' < |buckets| && 0 <= j' < |buckets[i']| && b == Pair(buckets[i'][j']);
      assert buckets[i][j].key == buckets[i'][j'].key;
    }
  }

  lemma TotalLengthUpdate<K, V>(buckets: seq<Chain<K, V>>, i: nat, c: Chain<K, V>)
    requires i < |buckets|
    ensures TotalLength(buckets[i := c]) + |buckets[i]| == TotalLength(buckets) + |c|
    decreases |buckets|
  {
    var n := |buckets| - 1;
    if i < n {
      assert buckets[i := c][..n] == buckets[..n][i := c];
      TotalLengthUpdate(buckets[..n], i, c);
    } else {
      assert buckets[i := c][..n] == buckets[..n];
    }
  }

  /** Linking a node in front of a bucket head adds its pair. */
  lemma PrependEntries<K, V>(buckets: seq<Chain<K, V>>, i: nat, e: Binding<K, V>)
    requires i < |buckets|
    ensures Entries(buckets[i := [e] + buckets[i]]) == Entries(buckets) + {Pair(e)}
  {
    var b': seq<Chain<K, V>> := buckets[i := [e] + buckets[i]];
    assert Pair(b'[i][0]) in Entries(b');
    forall x | x in Entries(buckets)
      ensures x in Entries(b')
    {
      var i', j :| 0 <= i' < |buckets| && 0 <= j < |buckets[i']| && x == Pair(buckets[i'][j]);
      if i' == i {
        assert b'[i][j + 1] == buckets[i][j];
      } else {
        assert b'[i'][j] == buckets[i'][j];
      }
    }
  }

  /** A key absent from the chain its hash selects is absent from the table. */
  lemma AbsentFromBucket<K, V>(buckets: seq<Chain<K, V>>, hash: K -> int, key: K)
    requires Placed(buckets, hash) && |buckets| > 0
    requires var c := buckets[BucketIndex(hash(key), |buckets|)]; forall j :: 0 <= j < |c| ==> c[j].key != key
    ensures key !in KeysOf(Entries(buckets))
  {
    forall x | x in Entries(buckets)
      ensures x.0 != key
    {
      var i, j :| 0 <= i < |buckets| && 0 <= j < |buckets[i]| && x == Pair(buckets[i][j]);
      assert BucketIndex(hash(buckets[i][j].key), |buckets|) == i;
    }
  }

  /** Prepending a node for a new key to the bucket its hash selects keeps the invariant. */
  lemma PrependKeepsShape<K, V>(buckets: seq<Chain<K, V>>, hash: K -> int, e: Binding<K, V>)
    requires Placed(buckets, hash) && DistinctKeys(buckets) && |buckets| > 0
    requires e.key !in KeysOf(Entries(buckets))
    ensures var i := BucketIndex(hash(e.key), |buckets|);
            && Placed(buckets[i := [e] + buckets[i]], hash)
            && DistinctKeys(buckets[i := [e] + buckets[i]])
            && TotalLength(buckets[i := [e] + buckets[i]]) == TotalLength(buckets) + 1
  {
    var i := BucketIndex(hash(e.key), |buckets|);
    var b': seq<Chain<K, V>> := buckets[i := [e] + buckets[i]];
    TotalLengthUpdate(buckets, i, [e] + buckets[i]);
    forall a, b | 0 <= a < b < |b'[i]|
      ensures b'[i][a].key != b'[i][b].key
    {
      if a == 0 {
        assert Pair(buckets[i][b - 1]) in Entries(buckets);
      } else {
        assert buckets[i][a - 1].key != buckets[i][b - 1].key;
      }
    }
    forall j | 0 <= j < |b'[i]|
      ensures BucketIndex(hash(b'[i][j].key), |b'|) == i
    {
      if j > 0 {
        assert b'[i][j] == buckets[i][j - 1];
      }
    }
  }

  /** Unlinking the node at position `p` of chain `i` removes exactly its pair. */
  lemma UnlinkEntries<K, V>(buckets: seq<Chain<K, V>>, hash: K -> int, i: nat, p: nat)
    requires Placed(buckets, hash) && DistinctKeys(buckets)
    requires i < |buckets| && p < |buckets[i]|
    ensures Entries(buckets[i := buckets[i][..p] + buckets[i][p + 1..]]) == Entries(buckets) - {Pair(buckets[i][p])}
  {
    var removed := buckets[i][p];
    var b' := buckets[i := buckets[i][..p] + buckets[i][p + 1..]];
    forall x | x in Entries(b')
      ensures x in Entries(buckets) && x != Pair(removed)
    {
      var i', j :| 0 <= i' < |b'| && 0 <= j < |b'[i']| && x == Pair(b'[i'][j]);
      if i' == i {
        var k := if j < p then j else j + 1;
        assert b'[i][j] == buckets[i][k];
        if j < p {
          assert buckets[i][k].key != buckets[i][p].key;
        } else {
          assert buckets[i][p].key != buckets[i][k].key;
        }
      } else {
        assert b'[i'][j] == buckets[i'][j];
        assert BucketIndex(hash(buckets[i'][j].key), |buckets|) != BucketIndex(hash(removed.key), |buckets|);
      }
    }
    forall x | x in Entries(buckets) && x != Pair(removed)
      ensures x in Entries(b')
    {
      var i', j :| 0 <= i' < |buckets| && 0 <= j < |buckets[i']| && x == Pair(buckets[i'][j]);
      if i' == i {
        if j < p {
          assert b'[i][j] == buckets[i][j];
        } else {
          assert j != p;
          assert b'[i][j - 1] == buckets[i][j];
        }
      } else {
        assert b'[i'][j] == buckets[i'][j];
      }
    }
  }

  /** Unlinking a node keeps placement and distinct chains and drops one node. */
  lemma UnlinkKeepsShape<K, V>(buckets: seq<Chain<K, V>>, hash: K -> int, i: nat, p: nat)
    requires Placed(buckets, hash) && DistinctKeys(buckets)
    requires i < |buckets| && p < |buckets[i]|
    ensures var b' := buckets[i := buckets[i][..p] + buckets[i][p + 1..]];
            && Placed(b', hash) && DistinctKeys(b') && TotalLength(b') + 1 == TotalLength(buckets)
  {
    var c := buckets[i][..p] + buckets[i][p + 1..];
    var b' := buckets[i := c];
    TotalLengthUpdate(buckets, i, c);
    forall j | 0 <= j < |c|
      ensures c[j] == buckets[i][if j < p then j else j + 1]
    {
    }
    forall a, b | 0 <= a < b < |c|
      ensures c[a].key != c[b].key
    {
      assert buckets[i][if a < p then a else a + 1].key != buckets[i][if b < p then b else b + 1].key;
    }
  }

  /** A table of `n` empty buckets. */
  function EmptyBuckets<K, V>(n: nat): (buckets: seq<Chain<K, V>>)
    ensures |buckets| == n && forall i :: 0 <= i < n ==> buckets[i] == []
  {
    seq(n, _ => [])
  }

  /** An empty table holds no nodes and no pairs. */
  lemma {:induction false} EmptyBucketsHoldNothing<K, V>(n: nat)
    ensures TotalLength(EmptyBuckets<K, V>(n)) == 0
    ensures Entries(EmptyBuckets<K, V>(n)) == {}
  {
    if n > 0 {
      EmptyBucketsHoldNothing<K, V>(n - 1);
      assert EmptyBuckets<K, V>(n)[..n - 1] == EmptyBuckets<K, V>(n - 1);
    }
  }

  /** The pairs of the chains before bucket `i`, and of the first `j` nodes of chain `i`. */
  ghost function Processed<K, V>(buckets: seq<Chain<K, V>>, i: nat, j: nat): set<(K, V)>
  {
    set i', j' | 0 <= i' < |buckets| && 0 <= j' < |buckets[i']| && (i' < i || (i' == i && j' < j)) :: Pair(buckets[i'][j'])
  }

  lemma ProcessedNext<K, V>(buckets: seq<Chain<K, V>>, i: nat, j: nat)
    requires i < |buckets| && j < |buckets[i]|
    ensures Processed(buckets, i, j + 1) == Processed(buckets, i, j) + {Pair(buckets[i][j])}
  {
  }

  lemma ProcessedChainDone<K, V>(buckets: seq<Chain<K, V>>, i: nat)
    requires i < |buckets|
    ensures Processed(buckets, i, |buckets[i]|) == Processed(buckets, i + 1, 0)
  {
  }

  lemma ProcessedNone<K, V>(buckets: seq<Chain<K, V>>)
    ensures Processed(buckets, 0, 0) == {}
  {
  }

  lemma ProcessedAll<K, V>(buckets: seq<Chain<K, V>>)
    ensures Processed(buckets, |buckets|, 0) == Entries(buckets)
  {
  }

  /** The key of the next node to move has not been moved yet. */
  lemma NextKeyFresh<K, V>(buckets: seq<Chain<K, V>>, hash: K -> int, i: nat, j: nat)
    requires Placed(buckets, hash) && DistinctKeys(buckets)
    requires i < |buckets| && j < |buckets[i]|
    ensures buckets[i][j].key !in KeysOf(Processed(buckets, i, j))
  {
    var key := buckets[i][j].key;
    forall x | x in Processed(buckets, i, j)
      ensures x.0 != key
    {
      var i', j' :| 0 <= i' < |buckets| && 0 <= j' < |buckets[i']| && (i' < i || (i' == i && j' < j)) && x == Pair(buckets[i'][j']);
      if i' == i {
        assert buckets[i][j'].key != buckets[i][j].key;
      } else {
        assert BucketIndex(hash(buckets[i'][j'].key), |buckets|) == i';
      }
    }
  }


  /** The map a table with placed nodes and distinct chains stores. */
  ghost function TableMap<K, V>(buckets: seq<Chain<K, V>>, hash: K -> int): (m: map<K, V>)
    requires Placed(buckets, hash) && DistinctKeys(buckets)
    ensures UniqueKeys(Entries(buckets)) && m == ToMap(Entries(buckets))
  {
    PlacedUnique(buckets, hash);
    ToMap(Entries(buckets))
  }

  /** Linking a node after the last node of a chain adds its pair. */
  lemma AppendEntries<K, V>(buckets: seq<Chain<K, V>>, i: nat, e: Binding<K, V>)
    requires i < |buckets|
    ensures Entries(buckets[i := buckets[i] + [e]]) == Entries(buckets) + {Pair(e)}
  {
    var b': seq<Chain<K, V>> := buckets[i := buckets[i] + [e]];
    assert Pair(b'[i][|buckets[i]|]) in Entries(b');
    forall x | x in Entries(buckets)
      ensures x in Entries(b')
    {
      var i', j :| 0 <= i' < |buckets| && 0 <= j < |buckets[i']| && x == Pair(buckets[i'][j]);
      assert b'[i'][j] == buckets[i'][j];
    }
  }

  /** Appending a node for a new key to the chain its hash selects keeps the invariant. */
  lemma AppendKeepsShape<K, V>(buckets: seq<Chain<K, V>>, hash: K -> int, e: Binding<K, V>)
    requires Placed(buckets, hash) && DistinctKeys(buckets) && |buckets| > 0
    requires e.key !in KeysOf(Entries(buckets))
    ensures var i := BucketIndex(hash(e.key), |buckets|);
            && Placed(buckets[i := buckets[i] + [e]], hash)
            && DistinctKeys(buckets[i := buckets[i] + [e]])
            && TotalLength(buckets[i := buckets[i] + [e]]) == TotalLength(buckets) + 1
  {
    var i := BucketIndex(hash(e.key), |buckets|);
    var n := |buckets[i]|;
    var b': seq<Chain<K, V>> := buckets[i := buckets[i] + [e]];
    TotalLengthUpdate(buckets, i, buckets[i] + [e]);
    forall a, b | 0 <= a < b < |b'[i]|
      ensures b'[i][a].key != b'[i][b].key
    {
      if b == n {
        assert Pair(buckets[i][a]) in Entries(buckets);
      } else {
        assert buckets[i][a].key != buckets[i][b].key;
      }
    }
    forall j | 0 <= j < |b'[i]|
      ensures BucketIndex(hash(b'[i][j].key), |b'|) == i
    {
      if j < n {
        assert b'[i][j] == buckets[i][j];
      }
    }
  }

  /** Overwriting the value of the node at position `p` of chain `i` swaps its pair for the new one. */
  lemma ReplaceEntries<K, V>(buckets: seq<Chain<K, V>>, hash: K -> int, i: nat, p: nat, v: V)
    requires Placed(buckets, hash) && DistinctKeys(buckets)
    requires i < |buckets| && p < |buckets[i]|
    ensures var e := buckets[i][p];
            Entries(buckets[i := buckets[i][p := Binding(e.key, v)]]) == Entries(buckets) - {Pair(e)} + {(e.key, v)}
  {
    var e := buckets[i][p];
    var b': seq<Chain<K, V>> := buckets[i := buckets[i][p := Binding(e.key, v)]];
    assert Pair(b'[i][p]) in Entries(b');
    forall x | x in Entries(b') && x != (e.key, v)
      ensures x in Entries(buckets) && x != Pair(e)
    {
      var i', j :| 0 <= i' < |b'| && 0 <= j < |b'[i']| && x == Pair(b'[i'][j]);
      assert b'[i'][j] == buckets[i'][j];
      if i' == i {
        if j < p {
          assert buckets[i][j].key != buckets[i][p].key;
        } else {
          assert buckets[i][p].key != buckets[i][j].key;
        }
      } else {
        assert BucketIndex(hash(buckets[i'][j].key), |buckets|) != BucketIndex(hash(e.key), |buckets|);
      }
    }
    forall x | x in Entries(buckets) && x != Pair(e)
      ensures x in Entries(b')
    {
      var i', j :| 0 <= i' < |buckets| && 0 <= j < |buckets[i']| && x == Pair(buckets[i'][j]);
      assert b'[i'][j] == buckets[i'][j];
    }
  }

  /** Overwriting a value keeps placement, distinct chains and the node count. */
  lemma ReplaceKeepsShape<K, V>(buckets: seq<Chain<K, V>>, hash: K -> int, i: nat, p: nat, v: V)
    requires Placed(buckets, hash) && DistinctKeys(buckets)
    requires i < |buckets| && p < |buckets[i]|
    ensures var b' := buckets[i := buckets[i][p := Binding(buckets[i][p].key, v)]];
            && Placed(b', hash) && DistinctKeys(b') && TotalLength(b') == TotalLength(buckets)
  {
    var c := buckets[i][p := Binding(buckets[i][p].key, v)];
    TotalLengthUpdate(buckets, i, c);
    forall a, b | 0 <= a < b < |c|
      ensures c[a].key != c[b].key
    {
      assert buckets[i][a].key != buckets[i][b].key;
    }
  }
}
