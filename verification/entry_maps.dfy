/** A finite map seen as a set of key/value pairs in which no key repeats.
    Both dictionaries are abstracted this way: the pairs stored in their
    chains form such a set, and the map it denotes is their meaning. */
module EntryMaps {

  /** No key occurs in two different pairs. */
  ghost predicate UniqueKeys<K, V>(s: set<(K, V)>)
  {
    forall a, b :: a in s && b in s && a.0 == b.0 ==> a == b
  }

  /** The keys of a set of pairs. */
  ghost function KeysOf<K, V>(s: set<(K, V)>): (keys: set<K>)
    ensures forall e :: e in s ==> e.0 in keys
  {
    set e | e in s :: e.0
  }

  /** The map a set of pairs with unique keys denotes. */
  ghost function ToMap<K, V>(s: set<(K, V)>): (m: map<K, V>)
    requires UniqueKeys(s)
    ensures m.Keys == KeysOf(s)
    ensures forall e :: e in s ==> e.0 in m && m[e.0] == e.1
  {
    map e | e in s :: e.0 := e.1
  }

  /** Adding a pair for a new key keeps the keys unique. */
  lemma InsertUnique<K, V>(s: set<(K, V)>, k: K, v: V)
    requires UniqueKeys(s) && k !in KeysOf(s)
    ensures UniqueKeys(s + {(k, v)})
  {
  }

  /** Adding a pair for a new key adds that binding to the map. */
  lemma ToMapInsert<K, V>(s: set<(K, V)>, k: K, v: V)
    requires UniqueKeys(s) && k !in KeysOf(s)
    ensures UniqueKeys(s + {(k, v)})
    ensures ToMap(s + {(k, v)}) == ToMap(s)[k := v]
  {
    InsertUnique(s, k, v);
    InsertKeys(s, k, v);
    var m, m' := ToMap(s), ToMap(s + {(k, v)});
    forall key | key in m && key != k
      ensures m'[key] == m[key]
    {
      var e :| e in s && e.0 == key;
      assert e in s + {(k, v)};
    }
  }

  /** Adding a pair adds its key. */
  lemma InsertKeys<K, V>(s: set<(K, V)>, k: K, v: V)
    ensures KeysOf(s + {(k, v)}) == KeysOf(s) + {k}
  {
  }

  /** Removing the pair for a key removes that key from the map. */
  lemma ToMapRemove<K, V>(s: set<(K, V)>, e: (K, V))
    requires UniqueKeys(s) && e in s
    ensures UniqueKeys(s - {e})
    ensures ToMap(s - {e}) == ToMap(s) - {e.0}
  {
    var t := s - {e};
    var m, m' := ToMap(s), ToMap(t);
    forall key | key in m.Keys - {e.0}
      ensures key in m'
    {
      var x :| x in s && x.0 == key;
      assert x in t;
    }
    assert m'.Keys == m.Keys - {e.0};
  }

  /** Replacing the pair for a key by another for the same key rebinds that key. */
  lemma ToMapReplace<K, V>(s: set<(K, V)>, e: (K, V), v: V)
    requires UniqueKeys(s) && e in s
    ensures UniqueKeys(s - {e} + {(e.0, v)})
    ensures ToMap(s - {e} + {(e.0, v)}) == ToMap(s)[e.0 := v]
  {
    var t := s - {e};
    ToMapRemove(s, e);
    assert e.0 !in KeysOf(t);
    ToMapInsert(t, e.0, v);
  }
}
