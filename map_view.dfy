/**
  The map a chain stands for, and when the head-to-end scan of `operator[]`
  agrees with it.
*/
module MapView {
  import opened Wrappers
  import opened ChainTable

  /** The keys found in the chain from position `from` on, each with the value of its
      first entry there. */
  ghost function ContentsFrom<K, V>(es: seq<Entry<K, V>>, from: nat): (c: map<K, V>)
    ensures forall i :: from <= i < |es| ==> es[i].key in c
    ensures forall k :: k in c ==> Find(es, from, k).Some? && c[k] == es[Find(es, from, k).value].value
    decreases |es| - from
  {
    if from >= |es| then map[] else ContentsFrom(es, from + 1)[es[from].key := es[from].value]
  }

  /** The map the whole chain stands for. */
  ghost function Contents<K, V>(es: seq<Entry<K, V>>): map<K, V>
  {
    ContentsFrom(es, 0)
  }

  /** The map holds exactly the keys of the chain's entries. */
  lemma ContentsHasKey<K, V>(es: seq<Entry<K, V>>, k: K)
    ensures k in Contents(es) <==> !NoKey(es, k)
  {
    if !NoKey(es, k) {
      var i :| 0 <= i < |es| && es[i].key == k;
      assert es[i].key in Contents(es);
    }
  }

  /** r is the answer `Find(es, from, k)` must give. */
  ghost predicate IsFirstKey<K, V>(es: seq<Entry<K, V>>, from: nat, k: K, r: Option<nat>)
  {
    match r
    case Some(q) => from <= q < |es| && es[q].key == k && forall j :: from <= j < q ==> es[j].key != k
    case None => forall j :: from <= j < |es| ==> es[j].key != k
  }

  lemma FindUnique<K, V>(es: seq<Entry<K, V>>, from: nat, k: K, r: Option<nat>)
    requires IsFirstKey(es, from, k, r)
    ensures Find(es, from, k) == r
  {
  }

  /** With distinct keys, the scan from the start of the chain finds each entry at its own position. */
  lemma FindEntry<K, V>(es: seq<Entry<K, V>>, i: nat)
    requires UniqueKeys(es) && i < |es|
    ensures Find(es, 0, es[i].key) == Some(i)
  {
    FindUnique(es, 0, es[i].key, Some(i));
  }

  /** When every entry's head is at or before it, the head-to-end scan gives the same
      answer as a scan of the whole chain from its front. */
  lemma LookupIsFullScan<K, V>(hash: K -> nat, t: Table<K, V>, k: K)
    requires WellFormed(hash, t) && Reachable(t)
    ensures Lookup(hash, t, k) == Find(t.entries, 0, k)
  {
    var es := t.entries;
    var b := Bucket(hash, k, |t.heads|);
    var f := Find(es, 0, k);
    if f.Some? {
      var i := f.value;
      assert es[i].cached == b;
      var q := t.heads[b].pos;
      assert q <= i;
      FindUnique(es, q, k, Some(i));
    } else if t.heads[b].At? {
      FindUnique(es, t.heads[b].pos, k, None);
    }
  }

  /** Lookup correctness: under reachability, `operator[]`'s scan finds a key exactly when
      the map holds it, and the entry it finds carries the map's value. */
  lemma LookupMatchesContents<K, V>(hash: K -> nat, t: Table<K, V>, k: K)
    requires WellFormed(hash, t) && Reachable(t)
    ensures Lookup(hash, t, k).Some? <==> k in Contents(t.entries)
    ensures Lookup(hash, t, k).Some? ==> t.entries[Lookup(hash, t, k).value].value == Contents(t.entries)[k]
  {
    LookupIsFullScan(hash, t, k);
  }

  /** Every entry of a reachable table with distinct keys is found by lookup at its own position. */
  lemma LookupFindsEveryEntry<K, V>(hash: K -> nat, t: Table<K, V>, i: nat)
    requires WellFormed(hash, t) && Reachable(t) && UniqueKeys(t.entries) && i < |t.entries|
    ensures Lookup(hash, t, t.entries[i].key) == Some(i)
  {
    LookupIsFullScan(hash, t, t.entries[i].key);
    FindEntry(t.entries, i);
  }

  // ---------------------------------------------------------------- how the map changes

  /** Where the scan for k lands after an entry with another key is inserted at p. */
  lemma FindInsertAt<K, V>(es: seq<Entry<K, V>>, p: nat, e: Entry<K, V>, k: K)
    requires p <= |es| && k != e.key
    ensures Find(InsertAt(es, p, e), 0, k) ==
              if Find(es, 0, k).Some? && Find(es, 0, k).value >= p then Some(Find(es, 0, k).value + 1)
              else Find(es, 0, k)
  {
    var es' := InsertAt(es, p, e);
    var f := Find(es, 0, k);
    if f.Some? {
      FindUnique(es', 0, k, Some(if f.value < p then f.value else f.value + 1));
    } else {
      FindUnique(es', 0, k, None);
    }
  }

  /** Where the scan for k lands after the entry at p, whose key is another, is removed. */
  lemma FindRemoveAt<K, V>(es: seq<Entry<K, V>>, p: nat, k: K)
    requires p < |es| && k != es[p].key
    ensures Find(RemoveAt(es, p), 0, k) ==
              if Find(es, 0, k).Some? && Find(es, 0, k).value > p then Some(Find(es, 0, k).value - 1)
              else Find(es, 0, k)
  {
    var es' := RemoveAt(es, p);
    var f := Find(es, 0, k);
    if f.Some? {
      FindUnique(es', 0, k, Some(if f.value < p then f.value else f.value - 1));
    } else {
      FindUnique(es', 0, k, None);
    }
  }

  lemma MapUpdateExt<K, V>(c: map<K, V>, c': map<K, V>, k0: K, v0: V)
    requires k0 in c' && c'[k0] == v0
    requires forall k :: k != k0 ==> (k in c' <==> k in c) && (k in c ==> c'[k] == c[k])
    ensures c' == c[k0 := v0]
  {
  }

  lemma MapRemoveExt<K, V>(c: map<K, V>, c': map<K, V>, k0: K)
    requires k0 !in c'
    requires forall k :: k != k0 ==> (k in c' <==> k in c) && (k in c ==> c'[k] == c[k])
    ensures c' == c - {k0}
  {
  }

  lemma ContentsInsertAtKey<K, V>(es: seq<Entry<K, V>>, p: nat, e: Entry<K, V>, k: K)
    requires p <= |es| && k != e.key
    ensures var c, c' := Contents(es), Contents(InsertAt(es, p, e));
            (k in c' <==> k in c) && (k in c ==> c'[k] == c[k])
  {
    var es' := InsertAt(es, p, e);
    FindInsertAt(es, p, e, k);
    if k in Contents(es') { assert Find(es', 0, k).Some?; }
    if k in Contents(es) { assert Find(es, 0, k).Some?; }
  }

  lemma ContentsInsertAt<K, V>(es: seq<Entry<K, V>>, p: nat, e: Entry<K, V>)
    requires p <= |es| && NoKey(es, e.key)
    ensures Contents(InsertAt(es, p, e)) == Contents(es)[e.key := e.value]
  {
    var es' := InsertAt(es, p, e);
    var c, c' := Contents(es), Contents(es');
    assert e.key in c' && c'[e.key] == e.value by {
      FindUnique(es', 0, e.key, Some(p));
    }
    forall k | k != e.key
      ensures (k in c' <==> k in c) && (k in c ==> c'[k] == c[k])
    {
      ContentsInsertAtKey(es, p, e, k);
    }
    MapUpdateExt(c, c', e.key, e.value);
  }

  lemma ContentsRemoveAtKey<K, V>(es: seq<Entry<K, V>>, p: nat, k: K)
    requires p < |es| && k != es[p].key
    ensures var c, c' := Contents(es), Contents(RemoveAt(es, p));
            (k in c' <==> k in c) && (k in c ==> c'[k] == c[k])
  {
    var es' := RemoveAt(es, p);
    FindRemoveAt(es, p, k);
    var f := Find(es, 0, k);
    if f.Some? {
      var i := f.value;
      var j := if i > p then i - 1 else i;
      assert es'[j] == es[i];
      assert es'[j].key in Contents(es');
      assert es[i].key in Contents(es);
    } else {
      assert k !in Contents(es);
      assert k !in Contents(es');
    }
  }

  lemma ContentsRemoveAt<K, V>(es: seq<Entry<K, V>>, p: nat)
    requires p < |es| && UniqueKeys(es)
    ensures Contents(RemoveAt(es, p)) == Contents(es) - {es[p].key}
  {
    var es' := RemoveAt(es, p);
    var c, c' := Contents(es), Contents(es');
    assert es[p].key !in c' by {
      FindUnique(es', 0, es[p].key, None);
    }
    forall k | k != es[p].key
      ensures (k in c' <==> k in c) && (k in c ==> c'[k] == c[k])
    {
      ContentsRemoveAtKey(es, p, k);
    }
    MapRemoveExt(c, c', es[p].key);
  }

  /** Changing only the cached indices leaves the map alone. */
  lemma ContentsRecache<K, V>(es: seq<Entry<K, V>>, es': seq<Entry<K, V>>)
    requires |es| == |es'|
    requires forall j :: 0 <= j < |es| ==> es'[j].key == es[j].key && es'[j].value == es[j].value
    ensures Contents(es') == Contents(es)
  {
    forall k
      ensures (k in Contents(es') <==> k in Contents(es))
      ensures k in Contents(es) ==> Contents(es')[k] == Contents(es)[k]
    {
      FindUnique(es', 0, k, Find(es, 0, k));
    }
  }

  lemma UniqueInsertAt<K, V>(es: seq<Entry<K, V>>, p: nat, e: Entry<K, V>)
    requires p <= |es| && NoKey(es, e.key) && UniqueKeys(es)
    ensures UniqueKeys(InsertAt(es, p, e))
  {
  }

  lemma UniqueRemoveAt<K, V>(es: seq<Entry<K, V>>, p: nat)
    requires p < |es| && UniqueKeys(es)
    ensures UniqueKeys(RemoveAt(es, p))
  {
  }
}
