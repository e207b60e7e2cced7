/** `HashMap.MyDictionary<TKey, TValue>`: an `int[]` of bucket heads and an
    `Entry[]` whose entries are chained by the index `NextValue`, −1 ending a
    chain (and marking an empty bucket).

    Entries are only ever appended, at `m_nextAvailable`; removal unlinks an
    entry and leaves its slot behind, counted in `m_removedCount`. The model
    keeps the slots in use, `m_entries[..m_nextAvailable]`, as `entries`; the
    slots past `m_nextAvailable` are never read. The comparer's `Equals` is
    Dafny equality on keys and its `GetHashCode` is `getHashCode`. */
module HashmapDictionary {
  import opened Common
  import opened EntryMaps
  import opened BucketChains

  /** `c_defaultInitialSize`. */
  const DefaultInitialSize: nat := 5

  /** The index that ends a chain or marks an empty bucket. */
  const NoEntry: int := -1

  /** `Entry`: the key, its hash code as computed when it was stored, the
      value, and the index of the next entry of the chain. */
  datatype Entry<K, V> = Entry(key: K, hashCode: int, value: V, nextValue: int)

  /** `m_buckets`, the used slots of `m_entries`, `m_removedCount`, and the comparer's hash. */
  datatype Dictionary<!K, V> = Dictionary(buckets: seq<int>, entries: seq<Entry<K, V>>, removedCount: nat, getHashCode: K -> int)
  {
    /** `Capacity`, the length of both arrays. */
    function Capacity(): nat
    {
      |buckets|
    }

    /** `m_nextAvailable`, the first slot never used. */
    function NextAvailable(): nat
    {
      |entries|
    }
  }

  // ---------------------------------------------------------------------
  // Chains of indices
  // ---------------------------------------------------------------------

  /** Every link points to a later slot, or ends the chain: entries are only
      appended after the tail, and unlinking skips forward. */
  ghost predicate LinksForward<K, V>(entries: seq<Entry<K, V>>)
  {
    forall i :: 0 <= i < |entries| ==> entries[i].nextValue == NoEntry || i < entries[i].nextValue < |entries|
  }

  /** Every bucket is empty or names a used slot. */
  ghost predicate HeadsInRange(buckets: seq<int>, used: nat)
  {
    forall b :: 0 <= b < |buckets| ==> NoEntry <= buckets[b] < used
  }

  /** The slots visited from `start` along `NextValue` until −1. */
  ghost function ChainFrom<K, V>(entries: seq<Entry<K, V>>, start: int): (c: seq<nat>)
    requires LinksForward(entries) && NoEntry <= start < |entries|
    ensures start == NoEntry <==> |c| == 0
    ensures |c| > 0 ==> c[0] == start
    ensures forall k :: 0 <= k < |c| ==> start <= c[k] < |entries|
    ensures forall k {:trigger entries[c[k]]} :: 0 <= k < |c| - 1 ==> entries[c[k]].nextValue == c[k + 1]
    ensures |c| > 0 ==> entries[c[|c| - 1]].nextValue == NoEntry
    decreases |entries| - start
  {
    if start == NoEntry then []
    else
      var next := entries[start].nextValue;
      [start] + if next == NoEntry then [] else ChainFrom(entries, next)
  }

  /** The bindings stored at the given slots. */
  ghost function Bindings<K, V>(entries: seq<Entry<K, V>>, c: seq<nat>): (r: Chain<K, V>)
    requires forall k :: 0 <= k < |c| ==> c[k] < |entries|
    ensures |r| == |c|
    ensures forall k {:trigger r[k]} :: 0 <= k < |c| ==> r[k] == Binding(entries[c[k]].key, entries[c[k]].value)
  {
    seq(|c|, k requires 0 <= k < |c| => Binding(entries[c[k]].key, entries[c[k]].value))
  }

  /** The arrays are well linked: every chain can be walked. */
  ghost predicate Linked<K, V>(buckets: seq<int>, entries: seq<Entry<K, V>>)
  {
    LinksForward(entries) && HeadsInRange(buckets, |entries|)
  }

  /** The chain of bucket `b`, as slots. */
  ghost function BucketChain<K, V>(buckets: seq<int>, entries: seq<Entry<K, V>>, b: nat): seq<nat>
    requires Linked(buckets, entries) && b < |buckets|
  {
    ChainFrom(entries, buckets[b])
  }

  /** The table read as chains of bindings, one per bucket. */
  ghost function View<K, V>(buckets: seq<int>, entries: seq<Entry<K, V>>): (view: seq<Chain<K, V>>)
    requires Linked(buckets, entries)
    ensures |view| == |buckets|
    ensures forall b :: 0 <= b < |buckets| ==> view[b] == Bindings(entries, BucketChain(buckets, entries, b))
  {
    seq(|buckets|, b requires 0 <= b < |buckets| => Bindings(entries, BucketChain(buckets, entries, b)))
  }

  /** Entries keep the hash code of their own key. */
  ghost predicate HashesCached<K, V>(entries: seq<Entry<K, V>>, hash: K -> int)
  {
    forall i :: 0 <= i < |entries| ==> entries[i].hashCode == hash(entries[i].key)
  }

  /** The shape both the live table and the one `ResizeAndAdd` builds keep:
      linked, hash codes cached, every reachable entry in the bucket of its
      hash, and no key twice in a chain. */
  ghost predicate WellFormed<K, V>(buckets: seq<int>, entries: seq<Entry<K, V>>, hash: K -> int)
  {
    && |buckets| > 0
    && Linked(buckets, entries)
    && HashesCached(entries, hash)
    && Placed(View(buckets, entries), hash)
    && DistinctKeys(View(buckets, entries))
  }

  /** The dictionary's invariant: well formed, no more slots used than the
      capacity, and every used slot either reachable or counted as removed. */
  ghost predicate Valid<K, V>(d: Dictionary<K, V>)
  {
    && WellFormed(d.buckets, d.entries, d.getHashCode)
    && d.NextAvailable() <= d.Capacity()
    && d.removedCount + TotalLength(View(d.buckets, d.entries)) == d.NextAvailable()
  }

  /** The map a valid dictionary stores. */
  ghost function Map<K, V>(d: Dictionary<K, V>): map<K, V>
    requires Valid(d)
  {
    TableMap(View(d.buckets, d.entries), d.getHashCode)
  }

  /** `Count`: used slots less removed ones, which is the number of reachable entries. */
  function Count<K, V>(d: Dictionary<K, V>): (n: int)
    ensures Valid(d) ==> n == TotalLength(View(d.buckets, d.entries))
  {
    d.NextAvailable() - d.removedCount
  }

  // ---------------------------------------------------------------------
  // What relinking does to chains
  // ---------------------------------------------------------------------

  /** A chain walks the same slots in another entry array that links those slots alike. */
  lemma {:induction false} ChainFrame<K, V>(entries: seq<Entry<K, V>>, entries': seq<Entry<K, V>>, start: int)
    requires LinksForward(entries) && LinksForward(entries') && |entries| <= |entries'|
    requires NoEntry <= start < |entries|
    requires forall i :: i in ChainFrom(entries, start) ==> entries'[i].nextValue == entries[i].nextValue
    ensures ChainFrom(entries', start) == ChainFrom(entries, start)
    decreases |entries| - start
  {
    if start != NoEntry {
      var next := entries[start].nextValue;
      if next != NoEntry {
        var c := ChainFrom(entries, start);
        assert ChainFrom(entries, next) == c[1..];
        forall i | i in ChainFrom(entries, next)
          ensures entries'[i].nextValue == entries[i].nextValue
        {
          assert i in c;
        }
        ChainFrame(entries, entries', next);
      }
    }
  }

  /** A chain walks the same slots in another entry array that links every slot from its start on alike. */
  lemma {:induction false} ChainFrameAbove<K, V>(entries: seq<Entry<K, V>>, entries': seq<Entry<K, V>>, start: int)
    requires LinksForward(entries) && LinksForward(entries') && |entries| <= |entries'|
    requires NoEntry <= start < |entries|
    requires forall i :: 0 <= i < |entries| && start <= i ==> entries'[i].nextValue == entries[i].nextValue
    ensures ChainFrom(entries', start) == ChainFrom(entries, start)
    decreases |entries| - start
  {
    if start != NoEntry {
      var next := entries[start].nextValue;
      if next != NoEntry {
        ChainFrameAbove(entries, entries', next);
      }
    }
  }

  /** Pointing the last slot `t` at a new slot appended with no successor keeps links pointing forward. */
  lemma ExtendLinksForward<K, V>(entries: seq<Entry<K, V>>, t: nat, e: Entry<K, V>)
    requires LinksForward(entries) && t < |entries| && e.nextValue == NoEntry
    ensures LinksForward(entries[t := entries[t].(nextValue := |entries|)] + [e])
  {
  }

  /** Pointing the tail of a chain at a new last slot extends the chain by that slot. */
  lemma {:induction false} ChainExtend<K, V>(entries: seq<Entry<K, V>>, entries': seq<Entry<K, V>>, start: int, e: Entry<K, V>)
    requires LinksForward(entries) && 0 <= start < |entries| && e.nextValue == NoEntry
    requires var c := ChainFrom(entries, start);
             entries' == entries[c[|c| - 1] := entries[c[|c| - 1]].(nextValue := |entries|)] + [e]
    ensures LinksForward(entries')
    ensures ChainFrom(entries', start) == ChainFrom(entries, start) + [|entries|]
    decreases |entries| - start
  {
    var c := ChainFrom(entries, start);
    var t := c[|c| - 1];
    ExtendLinksForward(entries, t, e);
    var next := entries[start].nextValue;
    if next == NoEntry {
      assert entries'[start].nextValue == |entries|;
      assert ChainFrom(entries', |entries|) == [|entries|];
    } else {
      var rest := ChainFrom(entries, next);
      assert rest == c[1..];
      assert t == rest[|rest| - 1] && start < next <= t;
      ChainExtend(entries, entries', next, e);
      assert entries'[start] == entries[start];
      assert ChainFrom(entries', start) == [start] + ChainFrom(entries', next);
    }
  }

  /** Pointing a slot past its successor keeps links pointing forward. */
  lemma SkipLinksForward<K, V>(entries: seq<Entry<K, V>>, q: nat, p: nat)
    requires LinksForward(entries) && q < |entries| && entries[q].nextValue == p
    ensures LinksForward(entries[q := entries[q].(nextValue := entries[p].nextValue)])
  {
  }

  /** Pointing the head of a chain past its successor drops the successor. */
  lemma SkipSecond<K, V>(entries: seq<Entry<K, V>>, entries': seq<Entry<K, V>>, start: nat)
    requires LinksForward(entries) && start < |entries| && entries[start].nextValue != NoEntry
    requires entries' == entries[start := entries[start].(nextValue := entries[entries[start].nextValue].nextValue)]
    ensures LinksForward(entries')
    ensures var c := ChainFrom(entries, start); ChainFrom(entries', start) == [start] + c[2..]
  {
    var c := ChainFrom(entries, start);
    var p := entries[start].nextValue;
    SkipLinksForward(entries, start, p);
    assert ChainFrom(entries, p) == c[1..];
    var after := entries[p].nextValue;
    assert entries'[start].nextValue == after;
    if after == NoEntry {
      assert c[2..] == [];
    } else {
      assert ChainFrom(entries, after) == c[2..];
      ChainFrameAbove(entries, entries', after);
    }
  }

  /** Pointing the slot before position `k` past it drops position `k` from the chain. */
  lemma {:induction false} ChainSkip<K, V>(entries: seq<Entry<K, V>>, entries': seq<Entry<K, V>>, start: int, k: nat)
    requires LinksForward(entries) && NoEntry <= start < |entries|
    requires 0 < k < |ChainFrom(entries, start)|
    requires var c := ChainFrom(entries, start);
             entries' == entries[c[k - 1] := entries[c[k - 1]].(nextValue := entries[c[k]].nextValue)]
    ensures LinksForward(entries')
    ensures ChainFrom(entries', start) == ChainFrom(entries, start)[..k] + ChainFrom(entries, start)[k + 1..]
    decreases |entries| - start, 1
  {
    if k == 1 {
      var c := ChainFrom(entries, start);
      assert ChainFrom(entries, entries[start].nextValue) == c[1..];
      SkipSecond(entries, entries', start);
      assert c[..k] + c[k + 1..] == [start] + c[2..];
    } else {
      ChainSkipLater(entries, entries', start, k);
    }
  }

  /** The case of `ChainSkip` where the dropped position is past the second. */
  lemma {:induction false} ChainSkipLater<K, V>(entries: seq<Entry<K, V>>, entries': seq<Entry<K, V>>, start: int, k: nat)
    requires LinksForward(entries) && NoEntry <= start < |entries|
    requires 1 < k < |ChainFrom(entries, start)|
    requires var c := ChainFrom(entries, start);
             entries' == entries[c[k - 1] := entries[c[k - 1]].(nextValue := entries[c[k]].nextValue)]
    ensures LinksForward(entries')
    ensures ChainFrom(entries', start) == ChainFrom(entries, start)[..k] + ChainFrom(entries, start)[k + 1..]
    decreases |entries| - start, 0
  {
    var c := ChainFrom(entries, start);
    var next := entries[start].nextValue;
    var rest := ChainFrom(entries, next);
    assert rest == c[1..];
    var q, p := c[k - 1], c[k];
    SkipLinksForward(entries, q, p);
    assert rest[k - 2] == q && rest[k - 1] == p && start < next <= q;
    ChainSkip(entries, entries', next, k - 1);
    assert entries'[start] == entries[start];
    assert ChainFrom(entries', start) == [start] + ChainFrom(entries', next);
    DropAfterHead(start, rest, k);
  }

  /** Dropping position `k > 0` of `[x] + r` drops position `k - 1` of `r`. */
  lemma DropAfterHead(x: nat, r: seq<nat>, k: nat)
    requires 0 < k <= |r|
    ensures ([x] + r)[..k] + ([x] + r)[k + 1..] == [x] + (r[..k - 1] + r[k..])
  {
    assert ([x] + r)[..k] == [x] + r[..k - 1];
    assert ([x] + r)[k + 1..] == r[k..];
  }

  // ---------------------------------------------------------------------
  // What relinking does to the table's chains of bindings
  // ---------------------------------------------------------------------

  /** A slot reachable from one bucket is reachable from no other. */
  lemma NotInOtherChain<K, V>(buckets: seq<int>, entries: seq<Entry<K, V>>, hash: K -> int, b: nat, k: nat, b': nat)
    requires Linked(buckets, entries) && Placed(View(buckets, entries), hash)
    requires b < |buckets| && b' < |buckets| && b != b' && k < |BucketChain(buckets, entries, b)|
    ensures BucketChain(buckets, entries, b)[k] !in BucketChain(buckets, entries, b')
  {
    var view: seq<Chain<K, V>> := View(buckets, entries);
    var c, c' := BucketChain(buckets, entries, b), BucketChain(buckets, entries, b');
    assert BucketIndex(hash(view[b][k].key), |view|) == b;
    forall j | 0 <= j < |c'|
      ensures c'[j] != c[k]
    {
      assert BucketIndex(hash(view[b'][j].key), |view|) == b';
    }
  }

  /** Two positions of one chain holding different keys hold different slots. */
  lemma ChainSlotsDistinct<K, V>(buckets: seq<int>, entries: seq<Entry<K, V>>, b: nat, k: nat)
    requires Linked(buckets, entries) && DistinctKeys(View(buckets, entries))
    requires b < |buckets| && k < |BucketChain(buckets, entries, b)|
    ensures var c := BucketChain(buckets, entries, b);
            forall j :: 0 <= j < |c| && j != k ==> c[j] != c[k]
  {
    var view: seq<Chain<K, V>> := View(buckets, entries);
    var c := BucketChain(buckets, entries, b);
    forall j | 0 <= j < |c| && j != k
      ensures c[j] != c[k]
    {
      if j < k {
        assert view[b][j].key != view[b][k].key;
      } else {
        assert view[b][k].key != view[b][j].key;
      }
    }
  }

  /** Bindings of a chain with one position dropped. */
  lemma BindingsDrop<K, V>(entries: seq<Entry<K, V>>, c: seq<nat>, k: nat)
    requires forall j :: 0 <= j < |c| ==> c[j] < |entries|
    requires k < |c|
    ensures Bindings(entries, c[..k] + c[k + 1..]) == Bindings(entries, c)[..k] + Bindings(entries, c)[k + 1..]
  {
  }

  /** Bindings of a chain with one slot appended. */
  lemma BindingsAppend<K, V>(entries: seq<Entry<K, V>>, c: seq<nat>, i: nat)
    requires forall j :: 0 <= j < |c| ==> c[j] < |entries|
    requires i < |entries|
    ensures Bindings(entries, c + [i]) == Bindings(entries, c) + [Binding(entries[i].key, entries[i].value)]
  {
  }

  /** Bindings read through another entry array that stores the same keys and values at the chain's slots. */
  lemma BindingsFrame<K, V>(entries: seq<Entry<K, V>>, entries': seq<Entry<K, V>>, c: seq<nat>)
    requires forall j :: 0 <= j < |c| ==> c[j] < |entries| && c[j] < |entries'|
    requires forall j :: 0 <= j < |c| ==> entries'[c[j]].key == entries[c[j]].key && entries'[c[j]].value == entries[c[j]].value
    ensures Bindings(entries', c) == Bindings(entries, c)
  {
  }

  /** Two tables whose chains agree except at bucket `b` have views that differ only there. */
  lemma ViewUpdate<K, V>(buckets: seq<int>, entries: seq<Entry<K, V>>, buckets': seq<int>, entries': seq<Entry<K, V>>, b: nat, chain: Chain<K, V>)
    requires Linked(buckets, entries) && Linked(buckets', entries')
    requires |buckets'| == |buckets| && b < |buckets|
    requires forall b' :: 0 <= b' < |buckets| && b' != b ==>
               Bindings(entries', BucketChain(buckets', entries', b')) == Bindings(entries, BucketChain(buckets, entries, b'))
    requires Bindings(entries', BucketChain(buckets', entries', b)) == chain
    ensures View(buckets', entries') == View(buckets, entries)[b := chain]
  {
  }

  /** The arrays after `m_entries[m_nextAvailable] = entry` is linked as the
      last entry of bucket `b`: from the bucket itself when its chain is empty
      (`t` is −1), else from the chain's last slot `t`. */
  function LinkLast<K, V>(buckets: seq<int>, entries: seq<Entry<K, V>>, b: nat, t: int, e: Entry<K, V>): (r: (seq<int>, seq<Entry<K, V>>))
    requires b < |buckets| && NoEntry <= t < |entries|
    ensures |r.0| == |buckets| && |r.1| == |entries| + 1 && r.1[|entries|] == e
    ensures forall i :: 0 <= i < |entries| ==> r.1[i].key == entries[i].key && r.1[i].value == entries[i].value
    ensures forall i :: 0 <= i < |entries| && i != t ==> r.1[i] == entries[i]
    ensures forall i :: 0 <= i < |buckets| && i != b ==> r.0[i] == buckets[i]
  {
    var n := |entries|;
    if t == NoEntry then (buckets[b := n], entries + [e])
    else (buckets, entries[t := entries[t].(nextValue := n)] + [e])
  }

  /** A chain that does not pass through slot `x` walks the same slots, and
      reads the same bindings, in an entry array that differs only at `x`
      and in slots appended after the old ones. */
  lemma ChainUntouched<K, V>(entries: seq<Entry<K, V>>, entries': seq<Entry<K, V>>, start: int, x: nat)
    requires LinksForward(entries) && LinksForward(entries') && |entries| <= |entries'|
    requires NoEntry <= start < |entries|
    requires forall i :: 0 <= i < |entries| && i != x ==> entries'[i] == entries[i]
    requires x !in ChainFrom(entries, start)
    ensures ChainFrom(entries', start) == ChainFrom(entries, start)
    ensures Bindings(entries', ChainFrom(entries', start)) == Bindings(entries, ChainFrom(entries, start))
  {
    var c := ChainFrom(entries, start);
    forall i | i in c
      ensures entries'[i].nextValue == entries[i].nextValue
    {
    }
    ChainFrame(entries, entries', start);
    BindingsFrame(entries, entries', c);
  }

  /** Overwriting the value of the slot at position `k` of a chain whose
      slots are distinct rebinds that position only. */
  lemma BindingsSetValue<K, V>(entries: seq<Entry<K, V>>, entries': seq<Entry<K, V>>, c: seq<nat>, k: nat, v: V)
    requires forall j :: 0 <= j < |c| ==> c[j] < |entries|
    requires k < |c| && forall j :: 0 <= j < |c| && j != k ==> c[j] != c[k]
    requires entries' == entries[c[k] := entries[c[k]].(value := v)]
    ensures Bindings(entries', c) == Bindings(entries, c)[k := Binding(entries[c[k]].key, v)]
  {
  }

  /** Linking a new entry after the last one of bucket `b` appends its slot to that bucket's chain. */
  lemma LinkLastChain<K, V>(buckets: seq<int>, entries: seq<Entry<K, V>>, b: nat, t: int, e: Entry<K, V>,
                           buckets': seq<int>, entries': seq<Entry<K, V>>)
    requires Linked(buckets, entries) && b < |buckets| && e.nextValue == NoEntry
    requires var c := BucketChain(buckets, entries, b); t == if |c| == 0 then NoEntry else c[|c| - 1]
    requires (buckets', entries') == LinkLast(buckets, entries, b, t, e)
    ensures Linked(buckets', entries')
    ensures BucketChain(buckets', entries', b) == BucketChain(buckets, entries, b) + [|entries|]
  {
    var n := |entries|;
    if t == NoEntry {
      assert LinksForward(entries');
      assert ChainFrom(entries', n) == [n];
    } else {
      ChainExtend(entries, entries', buckets[b], e);
    }
  }

  /** Linking a new entry at the end of bucket `b` leaves every other chain as it was. */
  lemma LinkLastOther<K, V>(buckets: seq<int>, entries: seq<Entry<K, V>>, hash: K -> int, b: nat, t: int, e: Entry<K, V>,
                           buckets': seq<int>, entries': seq<Entry<K, V>>, b': nat)
    requires Linked(buckets, entries) && Placed(View(buckets, entries), hash)
    requires b < |buckets| && b' < |buckets| && b' != b
    requires var c := BucketChain(buckets, entries, b); t == if |c| == 0 then NoEntry else c[|c| - 1]
    requires (buckets', entries') == LinkLast(buckets, entries, b, t, e)
    requires Linked(buckets', entries')
    ensures Bindings(entries', BucketChain(buckets', entries', b')) == Bindings(entries, BucketChain(buckets, entries, b'))
  {
    if t != NoEntry {
      var c := BucketChain(buckets, entries, b);
      NotInOtherChain(buckets, entries, hash, b, |c| - 1, b');
    }
    ChainUntouched(entries, entries', buckets[b'], if t == NoEntry then |entries| else t);
  }

  /** Linking a new entry after the last one of bucket `b` appends its binding
      to that bucket's chain and changes no other chain. */
  lemma ViewLinkLast<K, V>(buckets: seq<int>, entries: seq<Entry<K, V>>, hash: K -> int, b: nat, t: int, e: Entry<K, V>,
                          buckets': seq<int>, entries': seq<Entry<K, V>>)
    requires Linked(buckets, entries) && Placed(View(buckets, entries), hash)
    requires b < |buckets| && e.nextValue == NoEntry
    requires var c := BucketChain(buckets, entries, b); t == if |c| == 0 then NoEntry else c[|c| - 1]
    requires (buckets', entries') == LinkLast(buckets, entries, b, t, e)
    ensures Linked(buckets', entries')
    ensures View(buckets', entries') == View(buckets, entries)[b := View(buckets, entries)[b] + [Binding(e.key, e.value)]]
  {
    var c := BucketChain(buckets, entries, b);
    LinkLastChain(buckets, entries, b, t, e, buckets', entries');
    BindingsFrame(entries, entries', c);
    BindingsAppend(entries', c, |entries|);
    forall b' | 0 <= b' < |buckets| && b' != b
      ensures Bindings(entries', BucketChain(buckets', entries', b')) == Bindings(entries, BucketChain(buckets, entries, b'))
    {
      LinkLastOther(buckets, entries, hash, b, t, e, buckets', entries', b');
    }
    ViewUpdate(buckets, entries, buckets', entries', b, View(buckets, entries)[b] + [Binding(e.key, e.value)]);
  }

  /** Pointing bucket `b` past its first entry drops that entry's binding from its chain. */
  lemma ViewUnlinkHead<K, V>(buckets: seq<int>, entries: seq<Entry<K, V>>, b: nat, buckets': seq<int>)
    requires Linked(buckets, entries) && b < |buckets| && buckets[b] != NoEntry
    requires buckets' == buckets[b := entries[buckets[b]].nextValue]
    ensures Linked(buckets', entries)
    ensures View(buckets', entries) == View(buckets, entries)[b := View(buckets, entries)[b][..0] + View(buckets, entries)[b][1..]]
  {
    var c := BucketChain(buckets, entries, b);
    var next := entries[buckets[b]].nextValue;
    assert Linked(buckets', entries);
    if next != NoEntry {
      assert ChainFrom(entries, next) == c[1..];
    }
    assert BucketChain(buckets', entries, b) == c[..0] + c[1..];
    BindingsDrop(entries, c, 0);
    forall b' | 0 <= b' < |buckets| && b' != b
      ensures BucketChain(buckets', entries, b') == BucketChain(buckets, entries, b')
    {
    }
    var rest := View(buckets, entries)[b][1..];
    assert View(buckets, entries)[b][..0] + rest == rest;
    ViewUpdate(buckets, entries, buckets', entries, b, rest);
  }

  /** Pointing the entry before position `k` of bucket `b`'s chain past it
      drops the binding at `k` from that chain and changes no other chain. */
  lemma ViewUnlinkAfter<K, V>(buckets: seq<int>, entries: seq<Entry<K, V>>, hash: K -> int, b: nat, k: nat, entries': seq<Entry<K, V>>)
    requires Linked(buckets, entries) && Placed(View(buckets, entries), hash)
    requires b < |buckets| && 0 < k < |BucketChain(buckets, entries, b)|
    requires var c := BucketChain(buckets, entries, b);
             entries' == entries[c[k - 1] := entries[c[k - 1]].(nextValue := entries[c[k]].nextValue)]
    ensures Linked(buckets, entries')
    ensures View(buckets, entries') == View(buckets, entries)[b := View(buckets, entries)[b][..k] + View(buckets, entries)[b][k + 1..]]
  {
    var c := BucketChain(buckets, entries, b);
    ChainSkip(entries, entries', buckets[b], k);
    assert Linked(buckets, entries');
    BindingsFrame(entries, entries', c[..k] + c[k + 1..]);
    BindingsDrop(entries, c, k);
    forall b' | 0 <= b' < |buckets| && b' != b
      ensures Bindings(entries', BucketChain(buckets, entries', b')) == Bindings(entries, BucketChain(buckets, entries, b'))
    {
      UnlinkAfterOther(buckets, entries, hash, b, k, entries', b');
    }
    ViewUpdate(buckets, entries, buckets, entries', b, View(buckets, entries)[b][..k] + View(buckets, entries)[b][k + 1..]);
  }

  /** Unlinking an entry of bucket `b` leaves every other chain as it was. */
  lemma UnlinkAfterOther<K, V>(buckets: seq<int>, entries: seq<Entry<K, V>>, hash: K -> int, b: nat, k: nat, entries': seq<Entry<K, V>>, b': nat)
    requires Linked(buckets, entries) && Placed(View(buckets, entries), hash)
    requires b < |buckets| && b' < |buckets| && b' != b && 0 < k < |BucketChain(buckets, entries, b)|
    requires var c := BucketChain(buckets, entries, b);
             entries' == entries[c[k - 1] := entries[c[k - 1]].(nextValue := entries[c[k]].nextValue)]
    requires LinksForward(entries')
    ensures Bindings(entries', BucketChain(buckets, entries', b')) == Bindings(entries, BucketChain(buckets, entries, b'))
  {
    var c := BucketChain(buckets, entries, b);
    NotInOtherChain(buckets, entries, hash, b, k - 1, b');
    ChainUntouched(entries, entries', buckets[b'], c[k - 1]);
  }

  /** Overwriting the value at position `k` of bucket `b`'s chain rebinds that
      position and changes no chain's slots. */
  lemma ViewSetValue<K, V>(buckets: seq<int>, entries: seq<Entry<K, V>>, hash: K -> int, b: nat, k: nat, v: V, entries': seq<Entry<K, V>>)
    requires Linked(buckets, entries) && Placed(View(buckets, entries), hash) && DistinctKeys(View(buckets, entries))
    requires b < |buckets| && k < |BucketChain(buckets, entries, b)|
    requires var i := BucketChain(buckets, entries, b)[k];
             entries' == entries[i := entries[i].(value := v)]
    ensures Linked(buckets, entries')
    ensures View(buckets, entries') == View(buckets, entries)[b := View(buckets, entries)[b][k := Binding(View(buckets, entries)[b][k].key, v)]]
  {
    var c := BucketChain(buckets, entries, b);
    assert LinksForward(entries');
    forall b' | 0 <= b' < |buckets|
      ensures BucketChain(buckets, entries', b') == BucketChain(buckets, entries, b')
    {
      ChainFrameAbove(entries, entries', buckets[b']);
    }
    ChainSlotsDistinct(buckets, entries, b, k);
    BindingsSetValue(entries, entries', c, k, v);
    forall b' | 0 <= b' < |buckets| && b' != b
      ensures Bindings(entries', BucketChain(buckets, entries', b')) == Bindings(entries, BucketChain(buckets, entries, b'))
    {
      NotInOtherChain(buckets, entries, hash, b, k, b');
      BindingsFrame(entries, entries', BucketChain(buckets, entries, b'));
    }
    ViewUpdate(buckets, entries, buckets, entries', b, View(buckets, entries)[b][k := Binding(View(buckets, entries)[b][k].key, v)]);
  }

  // ---------------------------------------------------------------------
  // What relinking does to the dictionary
  // ---------------------------------------------------------------------

  /** A key is stored exactly when some pair of the view holds it. */
  lemma KeysOfMap<K, V>(d: Dictionary<K, V>)
    requires Valid(d)
    ensures Map(d).Keys == KeysOf(Entries(View(d.buckets, d.entries)))
  {
  }

  /** Linking a new entry, for a key the table lacks, at the end of the chain
      of its bucket keeps the table well formed and adds its pair. */
  lemma LinkLastKeepsShape<K, V>(buckets: seq<int>, entries: seq<Entry<K, V>>, hash: K -> int, t: int, e: Entry<K, V>,
                                buckets': seq<int>, entries': seq<Entry<K, V>>)
    requires WellFormed(buckets, entries, hash)
    requires e.nextValue == NoEntry && e.hashCode == hash(e.key)
    requires e.key !in KeysOf(Entries(View(buckets, entries)))
    requires var c := BucketChain(buckets, entries, BucketIndex(e.hashCode, |buckets|));
             t == if |c| == 0 then NoEntry else c[|c| - 1]
    requires (buckets', entries') == LinkLast(buckets, entries, BucketIndex(e.hashCode, |buckets|), t, e)
    ensures WellFormed(buckets', entries', hash)
    ensures Entries(View(buckets', entries')) == Entries(View(buckets, entries)) + {(e.key, e.value)}
    ensures TotalLength(View(buckets', entries')) == TotalLength(View(buckets, entries)) + 1
  {
    var view: seq<Chain<K, V>> := View(buckets, entries);
    var b := BucketIndex(e.hashCode, |buckets|);
    var binding := Binding(e.key, e.value);
    ViewLinkLast(buckets, entries, hash, b, t, e, buckets', entries');
    AppendKeepsShape(view, hash, binding);
    AppendEntries(view, b, binding);
    LinkLastHashes(buckets, entries, hash, b, t, e);
  }

  /** `LinkLast` changes only links, and adds an entry with its own key's hash code. */
  lemma LinkLastHashes<K, V>(buckets: seq<int>, entries: seq<Entry<K, V>>, hash: K -> int, b: nat, t: int, e: Entry<K, V>)
    requires HashesCached(entries, hash) && e.hashCode == hash(e.key)
    requires b < |buckets| && NoEntry <= t < |entries|
    ensures HashesCached(LinkLast(buckets, entries, b, t, e).1, hash)
  {
    var entries' := LinkLast(buckets, entries, b, t, e).1;
    forall i | 0 <= i < |entries'|
      ensures entries'[i].hashCode == hash(entries'[i].key)
    {
      if i < |entries| {
        assert entries'[i].key == entries[i].key && entries'[i].hashCode == entries[i].hashCode;
      }
    }
  }

  /** Unlinking the entry at position `p` of bucket `b` keeps the table well
      formed with one reachable entry fewer. */
  lemma UnlinkKeepsWellFormed<K, V>(buckets: seq<int>, entries: seq<Entry<K, V>>, hash: K -> int, b: nat, p: nat,
                                   buckets': seq<int>, entries': seq<Entry<K, V>>)
    requires WellFormed(buckets, entries, hash) && b < |buckets| && p < |View(buckets, entries)[b]|
    requires |buckets'| == |buckets| && |entries'| == |entries|
    requires forall i :: 0 <= i < |entries| ==> entries'[i].key == entries[i].key && entries'[i].hashCode == entries[i].hashCode
    requires Linked(buckets', entries')
    requires var view: seq<Chain<K, V>> := View(buckets, entries);
             View(buckets', entries') == view[b := view[b][..p] + view[b][p + 1..]]
    ensures WellFormed(buckets', entries', hash)
    ensures TotalLength(View(buckets', entries')) + 1 == TotalLength(View(buckets, entries))
  {
    UnlinkKeepsShape(View(buckets, entries), hash, b, p);
    assert HashesCached(entries', hash);
  }

  /** Unlinking the entry at position `p` of bucket `b` removes its key from the map. */
  lemma UnlinkMap<K, V>(d: Dictionary<K, V>, b: nat, p: nat, d': Dictionary<K, V>)
    requires Valid(d) && Valid(d') && d'.getHashCode == d.getHashCode
    requires b < d.Capacity() && p < |View(d.buckets, d.entries)[b]|
    requires var view: seq<Chain<K, V>> := View(d.buckets, d.entries);
             View(d'.buckets, d'.entries) == view[b := view[b][..p] + view[b][p + 1..]]
    ensures Map(d') == Map(d) - {View(d.buckets, d.entries)[b][p].key}
  {
    var view: seq<Chain<K, V>> := View(d.buckets, d.entries);
    UnlinkEntries(view, d.getHashCode, b, p);
    PlacedUnique(view, d.getHashCode);
    ToMapRemove(Entries(view), Pair(view[b][p]));
  }

  /** The chain of an all-empty bucket array over no entries is empty everywhere. */
  lemma EmptyTable<K, V>(n: nat)
    ensures Linked<K, V>(seq(n, _ => NoEntry), [])
    ensures View<K, V>(seq(n, _ => NoEntry), []) == EmptyBuckets(n)
  {
    var buckets := seq(n, _ => NoEntry);
    assert Linked<K, V>(buckets, []);
    forall b | 0 <= b < n
      ensures View<K, V>(buckets, [])[b] == []
    {
      assert BucketChain<K, V>(buckets, [], b) == [];
    }
  }

  // ---------------------------------------------------------------------
  // Operations
  // ---------------------------------------------------------------------

  /** `MyDictionary(comparer)`: `ArgumentNullException` for a missing comparer,
      else five empty buckets and no entries. `MyDictionary()` passes the
      default comparer, which is never missing. */
  function Create<K, V>(comparer: Option<K -> int>): (r: Result<Dictionary<K, V>>)
    ensures r.Err? <==> comparer.None?
    ensures r.Err? ==> r.error == ArgumentNull("comparer")
    ensures r.Ok? ==> Valid(r.value) && Map(r.value) == map[] && Count(r.value) == 0
    ensures r.Ok? ==> r.value.Capacity() == DefaultInitialSize && r.value.removedCount == 0
    ensures r.Ok? ==> r.value.getHashCode == comparer.value
  {
    if comparer.None? then Err(ArgumentNull("comparer"))
    else
      var d := Dictionary(seq(DefaultInitialSize, _ => NoEntry), [], 0, comparer.value);
      EmptyTable<K, V>(DefaultInitialSize);
      EmptyBucketsHoldNothing<K, V>(DefaultInitialSize);
      assert KeysOf(Entries(View(d.buckets, d.entries))) == {};
      Ok(d)
  }

  /** The bucket of a key: the absolute value of its hash code's C# remainder by the capacity. */
  function GetBucket<K, V>(d: Dictionary<K, V>, key: K): (b: nat)
    requires d.Capacity() > 0
    ensures b < d.Capacity()
  {
    BucketIndex(d.getHashCode(key), d.Capacity())
  }

  /** The last slot of bucket `b`'s chain, found by following `NextValue`
      from its head; −1 for an empty bucket. */
  method FindTail<K, V>(buckets: seq<int>, entries: seq<Entry<K, V>>, b: nat) returns (t: int)
    requires Linked(buckets, entries) && b < |buckets|
    ensures var c := BucketChain(buckets, entries, b); t == if |c| == 0 then NoEntry else c[|c| - 1]
  {
    ghost var c := BucketChain(buckets, entries, b);
    t := buckets[b];
    if t != NoEntry {
      ghost var pos := 0;
      while entries[t].nextValue != NoEntry
        invariant pos < |c| && t == c[pos]
        decreases |c| - pos
      {
        t := entries[t].nextValue;
        pos := pos + 1;
      }
    }
  }

  /** Follows bucket `b`'s chain from its head to the first entry holding
      `key`; −1 when no entry of the chain holds it. */
  method WalkChain<K(==), V>(buckets: seq<int>, entries: seq<Entry<K, V>>, b: nat, key: K) returns (entryIndex: int, ghost pos: nat)
    requires Linked(buckets, entries) && b < |buckets|
    ensures var c := BucketChain(buckets, entries, b);
            entryIndex == NoEntry <==> forall k :: 0 <= k < |c| ==> entries[c[k]].key != key
    ensures var c := BucketChain(buckets, entries, b);
            entryIndex != NoEntry ==> pos < |c| && entryIndex == c[pos] && entries[entryIndex].key == key
  {
    ghost var c := BucketChain(buckets, entries, b);
    entryIndex := buckets[b];
    pos := 0;
    while entryIndex != NoEntry
      invariant pos <= |c|
      invariant entryIndex == if pos < |c| then c[pos] else NoEntry
      invariant forall k :: 0 <= k < pos ==> entries[c[k]].key != key
      decreases |c| - pos
    {
      if entries[entryIndex].key == key {
        return;
      }
      entryIndex := entries[entryIndex].nextValue;
      pos := pos + 1;
    }
  }

  /** `GetValue`, the indexer's getter: walks the key's chain and returns the
      value of the first entry whose key is equal, else throws
      `ArgumentException`. */
  method GetValue<K(==), V>(d: Dictionary<K, V>, key: K) returns (r: Result<V>)
    requires Valid(d)
    ensures r.Ok? <==> key in Map(d)
    ensures r.Ok? ==> r.value == Map(d)[key]
    ensures r.Err? ==> r.error == Argument("")
  {
    var bucket := GetBucket(d, key);
    var entryIndex, pos := WalkChain(d.buckets, d.entries, bucket, key);
    if entryIndex != NoEntry {
      FoundInMap(d, bucket, pos);
      return Ok(d.entries[entryIndex].value);
    }
    NotFoundInMap(d, key);
    return Err(Argument(""));
  }

  /** The entry at position `pos` of a chain is bound in the map. */
  lemma FoundInMap<K, V>(d: Dictionary<K, V>, b: nat, pos: nat)
    requires Valid(d) && b < d.Capacity() && pos < |BucketChain(d.buckets, d.entries, b)|
    ensures var e := d.entries[BucketChain(d.buckets, d.entries, b)[pos]];
            e.key in Map(d) && Map(d)[e.key] == e.value
  {
    var view: seq<Chain<K, V>> := View(d.buckets, d.entries);
    assert Pair(view[b][pos]) in Entries(view);
  }

  /** A key none of whose bucket's entries hold it is not in the map. */
  lemma NotFoundInMap<K, V>(d: Dictionary<K, V>, key: K)
    requires Valid(d)
    requires var c := BucketChain(d.buckets, d.entries, GetBucket(d, key));
             forall k :: 0 <= k < |c| ==> d.entries[c[k]].key != key
    ensures key !in Map(d)
  {
    var view: seq<Chain<K, V>> := View(d.buckets, d.entries);
    var b := GetBucket(d, key);
    forall j | 0 <= j < |view[b]|
      ensures view[b][j].key != key
    {
    }
    AbsentFromBucket(view, d.getHashCode, key);
  }

  /** `RemoveEntry`, behind `Remove`: unlinks the first entry of the key's
      chain whose key is equal, from the bucket when it is the head and from
      the entry before it otherwise, and counts its slot as removed. */
  method RemoveEntry<K(==), V>(d: Dictionary<K, V>, key: K) returns (r: Dictionary<K, V>, removed: bool)
    requires Valid(d)
    ensures Valid(r)
    ensures removed <==> key in Map(d)
    ensures Map(r) == Map(d) - {key}
    ensures Count(r) == if removed then Count(d) - 1 else Count(d)
    ensures r.removedCount == if removed then d.removedCount + 1 else d.removedCount
    ensures r.Capacity() == d.Capacity() && r.NextAvailable() == d.NextAvailable() && r.getHashCode == d.getHashCode
  {
    var bucket := GetBucket(d, key);
    var entryIndex := d.buckets[bucket];
    if entryIndex == NoEntry {
      NotFoundInMap(d, key);
      return d, false;
    }
    if d.entries[entryIndex].key == key {
      r := d.(buckets := d.buckets[bucket := d.entries[entryIndex].nextValue], removedCount := d.removedCount + 1);
      UnlinkedHead(d, bucket, r);
      return r, true;
    }
    r, removed := RemoveAfterHead(d, key, bucket);
  }

  /** The `RemoveEntry` walk case, when the head of the key's chain holds another key. */
  method RemoveAfterHead<K(==), V>(d: Dictionary<K, V>, key: K, bucket: nat) returns (r: Dictionary<K, V>, removed: bool)
    requires Valid(d) && d.Capacity() > 0 && bucket == GetBucket(d, key)
    requires d.buckets[bucket] != NoEntry && d.entries[d.buckets[bucket]].key != key
    ensures Valid(r)
    ensures removed <==> key in Map(d)
    ensures Map(r) == Map(d) - {key}
    ensures Count(r) == if removed then Count(d) - 1 else Count(d)
    ensures r.removedCount == if removed then d.removedCount + 1 else d.removedCount
    ensures r.Capacity() == d.Capacity() && r.NextAvailable() == d.NextAvailable() && r.getHashCode == d.getHashCode
  {
    var previous, pos := FindPredecessor(d.buckets, d.entries, bucket, key);
    if previous != NoEntry {
      r := UnlinkSuccessor(d, key, bucket, previous, pos + 1);
      return r, true;
    }
    NotFoundInMap(d, key);
    return d, false;
  }

  /** Links entry `previous`, at position `p - 1` of bucket `b`'s chain, past
      its successor, which holds `key`, and counts the successor's slot as removed. */
  method UnlinkSuccessor<K, V>(d: Dictionary<K, V>, key: K, b: nat, previous: int, ghost p: nat) returns (r: Dictionary<K, V>)
    requires Valid(d) && b < d.Capacity() && 0 < p < |BucketChain(d.buckets, d.entries, b)|
    requires var c := BucketChain(d.buckets, d.entries, b);
             previous == c[p - 1] && d.entries[previous].nextValue == c[p] && d.entries[c[p]].key == key
    ensures Valid(r) && key in Map(d) && Map(r) == Map(d) - {key}
    ensures Count(r) == Count(d) - 1 && r.removedCount == d.removedCount + 1
    ensures r.Capacity() == d.Capacity() && r.NextAvailable() == d.NextAvailable() && r.getHashCode == d.getHashCode
  {
    var nextEntry := d.entries[d.entries[previous].nextValue];
    r := d.(entries := d.entries[previous := d.entries[previous].(nextValue := nextEntry.nextValue)],
            removedCount := d.removedCount + 1);
    UnlinkedAfter(d, b, p, key, r);
  }

  /** Pointing bucket `b` past its head entry, the `RemoveEntry` head case. */
  lemma UnlinkedHead<K, V>(d: Dictionary<K, V>, b: nat, d': Dictionary<K, V>)
    requires Valid(d) && b < d.Capacity() && d.buckets[b] != NoEntry
    requires d' == d.(buckets := d.buckets[b := d.entries[d.buckets[b]].nextValue], removedCount := d.removedCount + 1)
    ensures var key := d.entries[d.buckets[b]].key;
            && Valid(d') && key in Map(d) && Map(d') == Map(d) - {key} && Count(d') == Count(d) - 1
  {
    assert BucketChain(d.buckets, d.entries, b)[0] == d.buckets[b];
    ViewUnlinkHead(d.buckets, d.entries, b, d'.buckets);
    Unlinked(d, b, 0, d');
  }

  /** Pointing the entry before position `p` of bucket `b` past it, the
      `RemoveEntry` walk case. */
  lemma UnlinkedAfter<K, V>(d: Dictionary<K, V>, b: nat, p: nat, key: K, d': Dictionary<K, V>)
    requires Valid(d) && b < d.Capacity() && 0 < p < |BucketChain(d.buckets, d.entries, b)|
    requires var c := BucketChain(d.buckets, d.entries, b);
             d.entries[c[p - 1]].nextValue == c[p] && d.entries[c[p]].key == key
    requires var previous := BucketChain(d.buckets, d.entries, b)[p - 1];
             d' == d.(entries := d.entries[previous := d.entries[previous].(nextValue := d.entries[d.entries[previous].nextValue].nextValue)],
                      removedCount := d.removedCount + 1)
    ensures Valid(d') && key in Map(d) && Map(d') == Map(d) - {key} && Count(d') == Count(d) - 1
  {
    ViewUnlinkAfter(d.buckets, d.entries, d.getHashCode, b, p, d'.entries);
    Unlinked(d, b, p, d');
  }

  /** The walk of `RemoveEntry` past a head that does not hold `key`: the
      slot whose successor holds `key`, or −1 when the chain ends first. */
  method FindPredecessor<K(==), V>(buckets: seq<int>, entries: seq<Entry<K, V>>, b: nat, key: K) returns (previous: int, ghost pos: nat)
    requires Linked(buckets, entries) && b < |buckets|
    requires buckets[b] != NoEntry && entries[buckets[b]].key != key
    ensures var c := BucketChain(buckets, entries, b);
            previous == NoEntry <==> forall k :: 0 <= k < |c| ==> entries[c[k]].key != key
    ensures var c := BucketChain(buckets, entries, b);
            previous != NoEntry ==> pos + 1 < |c| && previous == c[pos] && entries[c[pos + 1]].key == key
    ensures var c := BucketChain(buckets, entries, b);
            previous != NoEntry ==> entries[previous].nextValue == c[pos + 1]
  {
    ghost var c := BucketChain(buckets, entries, b);
    var entryIndex := buckets[b];
    pos := 0;
    while entries[entryIndex].nextValue != NoEntry
      invariant pos < |c| && entryIndex == c[pos]
      invariant forall k :: 0 <= k <= pos ==> entries[c[k]].key != key
      decreases |c| - pos
    {
      var nextEntryIndex := entries[entryIndex].nextValue;
      if entries[nextEntryIndex].key == key {
        return entryIndex, pos;
      }
      entryIndex := nextEntryIndex;
      pos := pos + 1;
    }
    return NoEntry, pos;
  }

  /** What `RemoveEntry` promises once the entry at position `p` of bucket `b` is unlinked. */
  lemma Unlinked<K, V>(d: Dictionary<K, V>, b: nat, p: nat, d': Dictionary<K, V>)
    requires Valid(d) && b < d.Capacity() && p < |BucketChain(d.buckets, d.entries, b)|
    requires d'.getHashCode == d.getHashCode && |d'.buckets| == |d.buckets| && |d'.entries| == |d.entries|
    requires d'.removedCount == d.removedCount + 1
    requires forall i :: 0 <= i < |d.entries| ==> d'.entries[i].key == d.entries[i].key && d'.entries[i].hashCode == d.entries[i].hashCode
    requires Linked(d'.buckets, d'.entries)
    requires var view: seq<Chain<K, V>> := View(d.buckets, d.entries);
             View(d'.buckets, d'.entries) == view[b := view[b][..p] + view[b][p + 1..]]
    ensures var key := d.entries[BucketChain(d.buckets, d.entries, b)[p]].key;
            && Valid(d') && key in Map(d) && Map(d') == Map(d) - {key} && Count(d') == Count(d) - 1
  {
    UnlinkKeepsWellFormed(d.buckets, d.entries, d.getHashCode, b, p, d'.buckets, d'.entries);
    UnlinkMap(d, b, p, d');
    FoundInMap(d, b, p);
  }

  /** Storing `value` at position `p` of bucket `b`'s chain rebinds its key and keeps the count. */
  lemma Overwritten<K, V>(d: Dictionary<K, V>, b: nat, p: nat, value: V, d': Dictionary<K, V>)
    requires Valid(d) && b < d.Capacity() && p < |BucketChain(d.buckets, d.entries, b)|
    requires var i := BucketChain(d.buckets, d.entries, b)[p];
             d' == d.(entries := d.entries[i := d.entries[i].(value := value)])
    ensures var key := d.entries[BucketChain(d.buckets, d.entries, b)[p]].key;
            && Valid(d') && key in Map(d) && Map(d') == Map(d)[key := value] && Count(d') == Count(d)
  {
    var view: seq<Chain<K, V>> := View(d.buckets, d.entries);
    ViewSetValue(d.buckets, d.entries, d.getHashCode, b, p, value, d'.entries);
    OverwriteKeepsShape(d.buckets, d.entries, d.getHashCode, b, p, value, d'.entries);
    OverwriteMap(d, b, p, value, d');
    FoundInMap(d, b, p);
  }

  /** Rebinding position `p` of bucket `b` keeps the table well formed and its size. */
  lemma OverwriteKeepsShape<K, V>(buckets: seq<int>, entries: seq<Entry<K, V>>, hash: K -> int, b: nat, p: nat, value: V, entries': seq<Entry<K, V>>)
    requires WellFormed(buckets, entries, hash) && b < |buckets| && p < |View(buckets, entries)[b]|
    requires |entries'| == |entries|
    requires forall i :: 0 <= i < |entries| ==> entries'[i].key == entries[i].key && entries'[i].hashCode == entries[i].hashCode
    requires Linked(buckets, entries')
    requires var view: seq<Chain<K, V>> := View(buckets, entries);
             View(buckets, entries') == view[b := view[b][p := Binding(view[b][p].key, value)]]
    ensures WellFormed(buckets, entries', hash)
    ensures TotalLength(View(buckets, entries')) == TotalLength(View(buckets, entries))
  {
    ReplaceKeepsShape(View(buckets, entries), hash, b, p, value);
    assert HashesCached(entries', hash);
  }

  /** Rebinding position `p` of bucket `b` rebinds its key in the map. */
  lemma OverwriteMap<K, V>(d: Dictionary<K, V>, b: nat, p: nat, value: V, d': Dictionary<K, V>)
    requires Valid(d) && Valid(d') && d'.getHashCode == d.getHashCode
    requires b < d.Capacity() && p < |View(d.buckets, d.entries)[b]|
    requires var view: seq<Chain<K, V>> := View(d.buckets, d.entries);
             View(d'.buckets, d'.entries) == view[b := view[b][p := Binding(view[b][p].key, value)]]
    ensures Map(d') == Map(d)[View(d.buckets, d.entries)[b][p].key := value]
  {
    var view: seq<Chain<K, V>> := View(d.buckets, d.entries);
    ReplaceEntries(view, d.getHashCode, b, p, value);
    PlacedUnique(view, d.getHashCode);
    ToMapReplace(Entries(view), Pair(view[b][p]), value);
  }

  /** Linking a new entry for an absent key after the tail of its bucket,
      with a free slot for it, adds its binding and counts it. */
  lemma Appended<K, V>(d: Dictionary<K, V>, t: int, e: Entry<K, V>, d': Dictionary<K, V>)
    requires Valid(d) && d.NextAvailable() < d.Capacity()
    requires e.nextValue == NoEntry && e.hashCode == d.getHashCode(e.key) && e.key !in Map(d)
    requires var c := BucketChain(d.buckets, d.entries, GetBucket(d, e.key));
             t == if |c| == 0 then NoEntry else c[|c| - 1]
    requires var arrays := LinkLast(d.buckets, d.entries, GetBucket(d, e.key), t, e);
             d' == d.(buckets := arrays.0, entries := arrays.1)
    ensures Valid(d') && Map(d') == Map(d)[e.key := e.value] && Count(d') == Count(d) + 1
  {
    var view: seq<Chain<K, V>> := View(d.buckets, d.entries);
    KeysOfMap(d);
    LinkLastKeepsShape(d.buckets, d.entries, d.getHashCode, t, e, d'.buckets, d'.entries);
    PlacedUnique(view, d.getHashCode);
    ToMapInsert(Entries(view), e.key, e.value);
  }

  /** The search of `SetValue`: from the bucket's head, stop at the first
      entry holding `key` (`found`) or at the chain's last entry; −1 for an
      empty bucket. */
  method SearchChain<K(==), V>(buckets: seq<int>, entries: seq<Entry<K, V>>, b: nat, key: K) returns (entryIndex: int, found: bool, ghost pos: nat)
    requires Linked(buckets, entries) && b < |buckets|
    ensures var c := BucketChain(buckets, entries, b);
            found ==> pos < |c| && entryIndex == c[pos] && entries[entryIndex].key == key
    ensures var c := BucketChain(buckets, entries, b);
            !found ==> && (forall k :: 0 <= k < |c| ==> entries[c[k]].key != key)
                       && entryIndex == if |c| == 0 then NoEntry else c[|c| - 1]
  {
    ghost var c := BucketChain(buckets, entries, b);
    found := false;
    entryIndex := buckets[b];
    pos := 0;
    if entryIndex != NoEntry {
      while true
        invariant pos < |c| && entryIndex == c[pos]
        invariant forall k :: 0 <= k < pos ==> entries[c[k]].key != key
        decreases |c| - pos
      {
        if entries[entryIndex].key == key {
          found := true;
          break;
        }
        if entries[entryIndex].nextValue == NoEntry {
          assert pos == |c| - 1;
          break;
        }
        assert pos + 1 < |c| && entries[entryIndex].nextValue == c[pos + 1];
        entryIndex := entries[entryIndex].nextValue;
        pos := pos + 1;
      }
    }
  }

  /** `GetNextSize`: twice the capacity, plus one. */
  function GetNextSize<K, V>(d: Dictionary<K, V>): (n: nat)
    ensures n > d.Capacity()
  {
    d.Capacity() * 2 + 1
  }

  /** `SetValue`, behind the indexer's setter (`throwIfExists` false) and
      `Add` (true): overwrites the value of an entry holding the key, or
      throws `ArgumentException` for it when `throwIfExists`; otherwise
      stores a new entry in the next free slot and links it after the tail
      of its bucket, or hands it to `ResizeAndAdd` when no slot is free.
      `r` is the dictionary after the call. */
  method SetValue<K(==), V>(d: Dictionary<K, V>, key: K, value: V, throwIfExists: bool) returns (r: Dictionary<K, V>, thrown: Option<Error>)
    requires Valid(d)
    ensures Valid(r) && r.getHashCode == d.getHashCode
    ensures thrown.Some? <==> throwIfExists && key in Map(d)
    ensures thrown.Some? ==> thrown.value == Argument("") && r == d
    ensures thrown.None? ==> Map(r) == Map(d)[key := value]
    ensures thrown.None? ==> Count(r) == if key in Map(d) then Count(d) else Count(d) + 1
    ensures r.Capacity() == if key !in Map(d) && d.NextAvailable() == d.Capacity() then GetNextSize(d) else d.Capacity()
  {
    var hashcode := d.getHashCode(key);
    var bucket := GetBucket(d, key);
    var entryIndex, foundEntry, pos := SearchChain(d.buckets, d.entries, bucket, key);
    if !foundEntry {
      NotFoundInMap(d, key);
      var entry := Entry(key, hashcode, value, NoEntry);
      if d.NextAvailable() == d.Capacity() {
        r := ResizeAndAdd(d, entry);
      } else {
        var arrays := LinkLast(d.buckets, d.entries, bucket, entryIndex, entry);
        r := d.(buckets := arrays.0, entries := arrays.1);
        Appended(d, entryIndex, entry, r);
      }
      thrown := None;
    } else {
      if throwIfExists {
        FoundInMap(d, bucket, pos);
        return d, Some(Argument(""));
      }
      r := d.(entries := d.entries[entryIndex := d.entries[entryIndex].(value := value)]);
      Overwritten(d, bucket, pos, value, r);
      thrown := None;
    }
  }

  /** `ResizeAndAdd`, for a full table: a table of `GetNextSize` buckets
      that holds `entry` in slot 0 and then a copy of every reachable entry,
      bucket by bucket and head first, each linked after the tail of its new
      bucket; removed slots are not copied, so none is counted as removed.
      The loop runs over buckets up to `m_nextAvailable`, which is the
      capacity whenever this is called. */
  method ResizeAndAdd<K, V>(d: Dictionary<K, V>, entry: Entry<K, V>) returns (r: Dictionary<K, V>)
    requires Valid(d) && d.NextAvailable() == d.Capacity()
    requires entry.nextValue == NoEntry && entry.hashCode == d.getHashCode(entry.key) && entry.key !in Map(d)
    ensures Valid(r) && r.getHashCode == d.getHashCode
    ensures Map(r) == Map(d)[entry.key := entry.value]
    ensures Count(r) == Count(d) + 1
    ensures r.Capacity() == GetNextSize(d) && r.removedCount == 0
  {
    var newSize := GetNextSize(d);
    var arrays := LinkLast(seq(newSize, _ => NoEntry), [], BucketIndex(entry.hashCode, newSize), NoEntry, entry);
    MovedFirst(d, entry, arrays.0, arrays.1);
    var newBuckets, newEntries := MoveChains(d, entry, arrays.0, arrays.1);
    r := Dictionary(newBuckets, newEntries, 0, d.getHashCode);
    MovedAll(d, entry, r);
  }

  /** The outer loop of `ResizeAndAdd`: copies the chain of every old
      bucket in turn into the new arrays, which start out holding `entry`. */
  method MoveChains<K, V>(d: Dictionary<K, V>, entry: Entry<K, V>, buckets: seq<int>, entries: seq<Entry<K, V>>)
    returns (newBuckets: seq<int>, newEntries: seq<Entry<K, V>>)
    requires Valid(d) && d.NextAvailable() == d.Capacity() && entry.key !in Map(d)
    requires Rebuilt(d, entry, buckets, entries, 0)
    ensures Rebuilt(d, entry, newBuckets, newEntries, d.Capacity())
  {
    newBuckets, newEntries := buckets, entries;
    var currentBucketIndex := 0;
    while currentBucketIndex < d.NextAvailable()
      invariant Rebuilt(d, entry, newBuckets, newEntries, currentBucketIndex)
    {
      newBuckets, newEntries := MoveChain(d, entry, newBuckets, newEntries, currentBucketIndex);
      currentBucketIndex := currentBucketIndex + 1;
    }
    assert currentBucketIndex == d.Capacity();
  }

  /** How far `ResizeAndAdd` has got in the old chains `source`: the new
      table holds the pairs `s`, `n` of them, which are `e`'s and those of
      the chains before `i` and of the first `j` entries of chain `i`. */
  ghost predicate Progress<K, V>(source: seq<Chain<K, V>>, e: Entry<K, V>, s: set<(K, V)>, n: nat, i: nat, j: nat)
    requires i <= |source|
  {
    && s == {(e.key, e.value)} + Processed(source, i, j)
    && n == 1 + TotalLength(source[..i]) + j
  }

  /** The table `ResizeAndAdd` is building once the chains before bucket `i`
      have been copied after `e`: well formed, of `GetNextSize` buckets, with
      no slot removed, and holding `e`'s pair and those of the copied chains. */
  ghost predicate Rebuilt<K, V>(d: Dictionary<K, V>, e: Entry<K, V>, buckets: seq<int>, entries: seq<Entry<K, V>>, i: nat)
  {
    && Linked(d.buckets, d.entries) && i <= |d.buckets|
    && WellFormed(buckets, entries, d.getHashCode) && |buckets| == GetNextSize(d)
    && |entries| == TotalLength(View(buckets, entries))
    && Progress(View(d.buckets, d.entries), e, Entries(View(buckets, entries)), |entries|, i, 0)
  }

  /** The new table with only `e`, linked from its empty bucket, is where the copying starts. */
  lemma MovedFirst<K, V>(d: Dictionary<K, V>, e: Entry<K, V>, buckets: seq<int>, entries: seq<Entry<K, V>>)
    requires Linked(d.buckets, d.entries) && e.nextValue == NoEntry && e.hashCode == d.getHashCode(e.key)
    requires var n := GetNextSize(d);
             (buckets, entries) == LinkLast(seq(n, _ => NoEntry), [], BucketIndex(e.hashCode, n), NoEntry, e)
    ensures Rebuilt(d, e, buckets, entries, 0)
  {
    FirstEntry(GetNextSize(d), d.getHashCode, e, buckets, entries);
    var view: seq<Chain<K, V>> := View(d.buckets, d.entries);
    ProcessedNone(view);
    assert view[..0] == [];
  }

  /** Linking `e` into an empty table gives a well-formed table holding just `e`. */
  lemma FirstEntry<K, V>(n: nat, hash: K -> int, e: Entry<K, V>, buckets: seq<int>, entries: seq<Entry<K, V>>)
    requires n > 0 && e.nextValue == NoEntry && e.hashCode == hash(e.key)
    requires (buckets, entries) == LinkLast(seq(n, _ => NoEntry), [], BucketIndex(e.hashCode, n), NoEntry, e)
    ensures WellFormed(buckets, entries, hash) && |buckets| == n
    ensures Entries(View(buckets, entries)) == {(e.key, e.value)} && |entries| == TotalLength(View(buckets, entries)) == 1
  {
    var empty := seq(n, _ => NoEntry);
    EmptyTable<K, V>(n);
    EmptyBucketsHoldNothing<K, V>(n);
    LinkLastKeepsShape(empty, [], hash, NoEntry, e, buckets, entries);
  }

  /** Once every chain has been copied the new table is valid and stores the old map plus `e`. */
  lemma MovedAll<K, V>(d: Dictionary<K, V>, e: Entry<K, V>, r: Dictionary<K, V>)
    requires Valid(d) && e.key !in Map(d)
    requires Rebuilt(d, e, r.buckets, r.entries, d.Capacity())
    requires r.removedCount == 0 && r.getHashCode == d.getHashCode
    ensures Valid(r) && Map(r) == Map(d)[e.key := e.value] && Count(r) == Count(d) + 1
  {
    var view: seq<Chain<K, V>> := View(d.buckets, d.entries);
    ProcessedAll(view);
    assert view[..|view|] == view;
    assert Valid(r);
    MovedAllMap(d, e, r);
  }

  /** The map of the rebuilt table. */
  lemma MovedAllMap<K, V>(d: Dictionary<K, V>, e: Entry<K, V>, r: Dictionary<K, V>)
    requires Valid(d) && Valid(r) && e.key !in Map(d) && r.getHashCode == d.getHashCode
    requires Entries(View(r.buckets, r.entries)) == {(e.key, e.value)} + Entries(View(d.buckets, d.entries))
    ensures Map(r) == Map(d)[e.key := e.value]
  {
    var view: seq<Chain<K, V>> := View(d.buckets, d.entries);
    KeysOfMap(d);
    PlacedUnique(view, d.getHashCode);
    ToMapInsert(Entries(view), e.key, e.value);
  }

  /** The inner loop of `ResizeAndAdd`: copies chain `i` of the old table,
      entry by entry, reading each entry's successor before moving it. */
  method MoveChain<K, V>(d: Dictionary<K, V>, e: Entry<K, V>, buckets: seq<int>, entries: seq<Entry<K, V>>, i: nat)
    returns (buckets': seq<int>, entries': seq<Entry<K, V>>)
    requires Valid(d) && i < d.Capacity() && e.key !in Map(d)
    requires Rebuilt(d, e, buckets, entries, i)
    ensures Rebuilt(d, e, buckets', entries', i + 1)
  {
    ghost var view: seq<Chain<K, V>> := View(d.buckets, d.entries);
    ghost var c := BucketChain(d.buckets, d.entries, i);
    buckets', entries' := buckets, entries;
    var currentEntryIndex := d.buckets[i];
    ghost var j := 0;
    while currentEntryIndex != NoEntry
      invariant j <= |c|
      invariant currentEntryIndex == if j < |c| then c[j] else NoEntry
      invariant WellFormed(buckets', entries', d.getHashCode) && |buckets'| == |buckets|
      invariant |entries'| == TotalLength(View(buckets', entries'))
      invariant Progress(view, e, Entries(View(buckets', entries')), |entries'|, i, j)
      decreases |c| - j
    {
      var nextEntryIndex := d.entries[currentEntryIndex].nextValue;
      var copy := d.entries[currentEntryIndex].(nextValue := NoEntry);
      ghost var copied := Entries(View(buckets', entries'));
      MoveOne(d, e, copied, |entries'|, i, j);
      ProgressNext(view, e, copied, |entries'|, i, j);
      buckets', entries' := InsertLast(buckets', entries', d.getHashCode, copy);
      currentEntryIndex := nextEntryIndex;
      j := j + 1;
    }
    ProgressChainDone(view, e, Entries(View(buckets', entries')), |entries'|, i);
  }

  /** Copying the entry at position `j` of chain `i` advances the copying by one. */
  lemma ProgressNext<K, V>(source: seq<Chain<K, V>>, e: Entry<K, V>, s: set<(K, V)>, n: nat, i: nat, j: nat)
    requires i < |source| && j < |source[i]|
    ensures Progress(source, e, s, n, i, j) ==> Progress(source, e, s + {Pair(source[i][j])}, n + 1, i, j + 1)
  {
    ProcessedNext(source, i, j);
  }

  /** Copying all of chain `i` moves the copying on to the next bucket. */
  lemma ProgressChainDone<K, V>(source: seq<Chain<K, V>>, e: Entry<K, V>, s: set<(K, V)>, n: nat, i: nat)
    requires i < |source|
    requires Progress(source, e, s, n, i, |source[i]|)
    ensures Progress(source, e, s, n, i + 1, 0)
  {
    ProcessedChainDone(source, i);
    assert source[..i + 1][..i] == source[..i];
  }

  /** The entry at position `j` of chain `i` can be moved: its key is in
      neither the copied pairs nor `e`, and its hash code is its key's. */
  lemma MoveOne<K, V>(d: Dictionary<K, V>, e: Entry<K, V>, s: set<(K, V)>, n: nat, i: nat, j: nat)
    requires Valid(d) && i < d.Capacity() && e.key !in Map(d)
    requires j < |BucketChain(d.buckets, d.entries, i)|
    requires Progress(View(d.buckets, d.entries), e, s, n, i, j)
    ensures var moved := d.entries[BucketChain(d.buckets, d.entries, i)[j]];
            && moved.hashCode == d.getHashCode(moved.key)
            && moved.key !in KeysOf(s)
            && Pair(View(d.buckets, d.entries)[i][j]) == (moved.key, moved.value)
  {
    var view: seq<Chain<K, V>> := View(d.buckets, d.entries);
    NextKeyFresh(view, d.getHashCode, i, j);
    FoundInMap(d, i, j);
    InsertKeys(Processed(view, i, j), e.key, e.value);
  }

  /** Lines that copy one entry in `ResizeAndAdd`: its new bucket from its
      cached hash code, then, after the tail of that bucket's chain, the
      copy in the next free slot. */
  method InsertLast<K, V>(buckets: seq<int>, entries: seq<Entry<K, V>>, hash: K -> int, e: Entry<K, V>)
    returns (buckets': seq<int>, entries': seq<Entry<K, V>>)
    requires WellFormed(buckets, entries, hash)
    requires e.nextValue == NoEntry && e.hashCode == hash(e.key)
    requires e.key !in KeysOf(Entries(View(buckets, entries)))
    ensures WellFormed(buckets', entries', hash)
    ensures |buckets'| == |buckets| && |entries'| == |entries| + 1
    ensures Entries(View(buckets', entries')) == Entries(View(buckets, entries)) + {(e.key, e.value)}
    ensures TotalLength(View(buckets', entries')) == TotalLength(View(buckets, entries)) + 1
  {
    var bucketIndex := BucketIndex(e.hashCode, |buckets|);
    var tail := FindTail(buckets, entries, bucketIndex);
    buckets', entries' := LinkLast(buckets, entries, bucketIndex, tail, e).0, LinkLast(buckets, entries, bucketIndex, tail, e).1;
    LinkLastKeepsShape(buckets, entries, hash, tail, e, buckets', entries');
  }

  /** `Add`: `SetValue` with `throwIfExists`, so a key already present throws
      `ArgumentException` and leaves the dictionary as it was. */
  method Add<K(==), V>(d: Dictionary<K, V>, key: K, value: V) returns (r: Dictionary<K, V>, thrown: Option<Error>)
    requires Valid(d)
    ensures Valid(r)
    ensures thrown.Some? <==> key in Map(d)
    ensures thrown.Some? ==> thrown.value == Argument("") && r == d
    ensures thrown.None? ==> Map(r) == Map(d)[key := value] && Count(r) == Count(d) + 1
  {
    r, thrown := SetValue(d, key, value, true);
  }

  /** The indexer's setter: `SetValue` without `throwIfExists`, which binds
      the key whether or not it was present. */
  method SetItem<K(==), V>(d: Dictionary<K, V>, key: K, value: V) returns (r: Dictionary<K, V>)
    requires Valid(d)
    ensures Valid(r) && r.getHashCode == d.getHashCode
    ensures Map(r) == Map(d)[key := value]
    ensures Count(r) == if key in Map(d) then Count(d) else Count(d) + 1
  {
    var thrown;
    r, thrown := SetValue(d, key, value, false);
  }
}
