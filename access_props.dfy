/**
  `operator[]`: reading returns the map's value, and assigning through it updates the
  map at the key and nowhere else.
*/
module AccessProps {
  import opened Wrappers
  import opened ChainTable
  import opened MapView

  lemma ContentsSetValueKey<K, V>(es: seq<Entry<K, V>>, p: nat, v: V, k: K)
    requires p < |es| && k != es[p].key
    ensures var c, c' := Contents(es), Contents(es[p := es[p].(value := v)]);
            (k in c' <==> k in c) && (k in c ==> c'[k] == c[k])
  {
    var es' := es[p := es[p].(value := v)];
    FindUnique(es', 0, k, Find(es, 0, k));
    if k in Contents(es') { assert Find(es', 0, k).Some?; }
    if k in Contents(es) { assert Find(es, 0, k).Some?; }
  }

  /** Replacing the value of a key's first entry replaces the key's value in the map. */
  lemma ContentsSetValue<K, V>(es: seq<Entry<K, V>>, p: nat, v: V)
    requires p < |es| && Find(es, 0, es[p].key) == Some(p)
    ensures Contents(es[p := es[p].(value := v)]) == Contents(es)[es[p].key := v]
  {
    var k := es[p].key;
    var es' := es[p := es[p].(value := v)];
    var c, c' := Contents(es), Contents(es');
    assert k in c' && c'[k] == v by {
      FindUnique(es', 0, k, Some(p));
    }
    forall k' | k' != k
      ensures (k' in c' <==> k' in c) && (k' in c ==> c'[k'] == c[k'])
    {
      ContentsSetValueKey(es, p, v, k');
    }
    MapUpdateExt(c, c', k, v);
  }

  lemma SetValueKeeps<K, V>(hash: K -> nat, t: Table<K, V>, k: K, v: V)
    requires |t.heads| > 0 && Reachable(t) && Lookup(hash, t, k).Some?
    ensures var r := SetValue(hash, t, k, v);
            && Reachable(r)
            && (UniqueKeys(t.entries) ==> UniqueKeys(r.entries))
            && Lookup(hash, r, k) == Lookup(hash, t, k)
  {
    var p := Lookup(hash, t, k).value;
    FindUnique(SetValue(hash, t, k, v).entries, t.heads[Bucket(hash, k, |t.heads|)].pos, k, Some(p));
  }

  /** Assignment through `operator[]` on a reachable table: the map takes the new value at
      the key, the other keys keep theirs, the table stays reachable and keys stay distinct. */
  lemma SetValueMap<K, V>(hash: K -> nat, t: Table<K, V>, k: K, v: V)
    requires WellFormed(hash, t) && Reachable(t) && Lookup(hash, t, k).Some?
    ensures var r := SetValue(hash, t, k, v);
            && Reachable(r)
            && Contents(r.entries) == Contents(t.entries)[k := v]
            && (UniqueKeys(t.entries) ==> UniqueKeys(r.entries))
            && Lookup(hash, r, k) == Lookup(hash, t, k)
  {
    LookupIsFullScan(hash, t, k);
    ContentsSetValue(t.entries, Lookup(hash, t, k).value, v);
    SetValueKeeps(hash, t, k, v);
  }
}
