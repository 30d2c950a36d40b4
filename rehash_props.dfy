/**
  What `rehash` does to the map: the loop as written keeps every key reachable and the
  map unchanged; the rebuilding repair also restores the locality invariant.
*/
module RehashProps {
  import opened Wrappers
  import opened ChainTable
  import opened MapView
  import opened InsertProps
  import opened EraseProps

  /** Rehash as written changes only cached indices, so the map and distinct keys are kept. */
  lemma RehashKeepsMap<K, V>(hash: K -> nat, t: Table<K, V>)
    requires |t.heads| > 0
    ensures Contents(Rehash(hash, t).entries) == Contents(t.entries)
    ensures UniqueKeys(t.entries) ==> UniqueKeys(Rehash(hash, t).entries)
  {
    ContentsRecache(t.entries, Rehash(hash, t).entries);
  }

  /** After the rehash as written, lookup still finds exactly the keys of the map, with
      their values: every head sits at or before the entries of its bucket. */
  lemma RehashLookup<K, V>(hash: K -> nat, t: Table<K, V>, k: K)
    requires |t.heads| > 0
    ensures var r := Rehash(hash, t);
            && (Lookup(hash, r, k).Some? <==> k in Contents(t.entries))
            && (Lookup(hash, r, k).Some? ==> r.entries[Lookup(hash, r, k).value].value == Contents(t.entries)[k])
  {
    RehashKeepsMap(hash, t);
    LookupMatchesContents(hash, Rehash(hash, t), k);
  }

  /** The next entry's key is not among those placed before it. */
  lemma PrefixGains<K, V>(es: seq<Entry<K, V>>, i: nat)
    requires i < |es| && UniqueKeys(es)
    ensures NoKey(es[..i], es[i].key)
    ensures Contents(es[..i + 1]) == Contents(es[..i])[es[i].key := es[i].value]
  {
    var e := es[i];
    var pre := es[..i];
    forall j | 0 <= j < |pre| ensures pre[j].key != e.key {
      assert pre[j] == es[j];
    }
    assert es[..i + 1] == InsertAt(pre, i, e);
    ContentsInsertAt(pre, i, e);
  }

  /** The next entry's key is not among those placed so far, and placing it gives the
      map of the next prefix. */
  lemma PrefixFresh<K, V>(es: seq<Entry<K, V>>, i: nat, placed: seq<Entry<K, V>>)
    requires i < |es| && UniqueKeys(es) && Contents(placed) == Contents(es[..i])
    ensures NoKey(placed, es[i].key)
    ensures Contents(es[..i + 1]) == Contents(placed)[es[i].key := es[i].value]
  {
    PrefixGains(es, i);
    ContentsHasKey(es[..i], es[i].key);
    ContentsHasKey(placed, es[i].key);
  }

  /** Placing the next entry keeps the locality invariant and adds its pair to the map
      of the entries placed so far. */
  lemma RebuildStep<K, V>(hash: K -> nat, es: seq<Entry<K, V>>, i: nat, acc: Table<K, V>)
    requires i < |es| && WellFormed(hash, acc) && NoDangling(acc)
    requires Local(acc) && UniqueKeys(acc.entries) && UniqueKeys(es)
    requires Contents(acc.entries) == Contents(es[..i])
    ensures var r := Place(hash, acc, es[i].key, es[i].value).table;
            Local(r) && UniqueKeys(r.entries) && Contents(r.entries) == Contents(es[..i + 1])
  {
    var k, v := es[i].key, es[i].value;
    PrefixFresh(es, i, acc.entries);
    var r := Place(hash, acc, k, v).table;
    assert Local(r) by {
      PlaceNewKeyLocal(hash, acc, k, v);
    }
    assert UniqueKeys(r.entries) && Contents(r.entries) == Contents(acc.entries)[k := v] by {
      HeadsFirstReachable(hash, acc);
      PlaceNewKey(hash, acc, k, v);
    }
  }

  /** Placing the remaining entries keeps the locality invariant and ends with the map of
      the whole chain. */
  lemma {:induction false} RebuildKeeps<K, V>(hash: K -> nat, es: seq<Entry<K, V>>, i: nat, acc: Table<K, V>)
    requires i <= |es| && WellFormed(hash, acc) && NoDangling(acc)
    requires Local(acc) && UniqueKeys(acc.entries) && UniqueKeys(es)
    requires Contents(acc.entries) == Contents(es[..i])
    ensures var r := RebuildFrom(hash, es, i, acc);
            Local(r) && UniqueKeys(r.entries) && Contents(r.entries) == Contents(es)
    decreases |es| - i
  {
    if i == |es| {
      assert es[..i] == es;
    } else {
      RebuildStep(hash, es, i, acc);
      RebuildKeeps(hash, es, i + 1, Place(hash, acc, es[i].key, es[i].value).table);
    }
  }

  /** The rebuilding rehash keeps the map and distinct keys and leaves every bucket one
      run headed by its first entry. */
  lemma RehashRebuildMap<K, V>(hash: K -> nat, t: Table<K, V>)
    requires |t.heads| > 0 && UniqueKeys(t.entries)
    ensures var r := RehashRebuild(hash, t);
            Local(r) && UniqueKeys(r.entries) && Contents(r.entries) == Contents(t.entries)
  {
    var m := |t.heads| * |t.heads|;
    var acc: Table<K, V> := Table([], seq(m, _ => Empty));
    forall c | 0 <= c < m ensures acc.heads[c] == FirstCached(acc.entries, c) {
      FirstCachedUnique(acc.entries, c, Empty);
    }
    assert t.entries[..0] == [];
    RebuildKeeps(hash, t.entries, 0, acc);
  }

  /** The rehash with the head choice repaired keeps the map and distinct keys; every
      entry is reached from its head, lookup agrees with the map, and a later erase of
      any key leaves no head dangling. */
  lemma RehashOwnHeadMap<K, V>(hash: K -> nat, t: Table<K, V>, k: K)
    requires |t.heads| > 0
    ensures var r := RehashOwnHead(hash, t);
            && Contents(r.entries) == Contents(t.entries)
            && (UniqueKeys(t.entries) ==> UniqueKeys(r.entries))
            && Reachable(r) && NoDangling(r)
            && (Lookup(hash, r, k).Some? <==> k in Contents(t.entries))
            && (Lookup(hash, r, k).Some? ==> r.entries[Lookup(hash, r, k).value].value == Contents(t.entries)[k])
            && (Erasable(hash, r, k) ==> NoDangling(Erase(hash, r, k)))
  {
    var r := RehashOwnHead(hash, t);
    ContentsRecache(t.entries, r.entries);
    HeadsFirstReachable(hash, r);
    LookupMatchesContents(hash, r, k);
    if Erasable(hash, r, k) {
      EraseNoDangling(hash, r, k);
    }
  }
}
