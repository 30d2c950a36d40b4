/**
  What `insert` does to the chain, to the heads and to the map the table stands for.
*/
module InsertProps {
  import opened Wrappers
  import opened ChainTable
  import opened MapView

  // ---------------------------------------------------------------- invariants of an insertion

  /** Inserting an entry of bucket b at p, where p is b's head (or the front when b is
      empty), and making it b's head keeps every entry reachable. */
  lemma InsertAtReachable<K, V>(t: Table<K, V>, p: nat, b: nat, e: Entry<K, V>)
    requires Reachable(t) && b < |t.heads| && e.cached == b && p <= |t.entries|
    requires t.heads[b] == At(p) || (t.heads[b] == Empty && p == 0)
    ensures Reachable(Table(InsertAt(t.entries, p, e), ShiftHeads(t.heads, p)[b := At(p)]))
  {
    var es, hs := t.entries, t.heads;
    var es', hs' := InsertAt(es, p, e), ShiftHeads(hs, p)[b := At(p)];
    forall i | 0 <= i < |es'|
      ensures es'[i].cached < |hs'| && hs'[es'[i].cached].At? && hs'[es'[i].cached].pos <= i
    {
      if i < p {
        var c := es[i].cached;
        assert c != b;
        assert hs'[c] == ShiftHead(hs[c], p);
      } else if i > p {
        var c := es[i - 1].cached;
        assert es'[i] == es[i - 1];
        if c != b {
          assert hs'[c] == ShiftHead(hs[c], p);
        }
      }
    }
  }

  /** The same insertion keeps every head at the first entry of its bucket. */
  lemma InsertAtHeadsFirst<K, V>(t: Table<K, V>, p: nat, b: nat, e: Entry<K, V>)
    requires HeadsFirst(t) && b < |t.heads| && e.cached == b && p <= |t.entries|
    requires t.heads[b] == At(p) || (t.heads[b] == Empty && p == 0)
    ensures HeadsFirst(Table(InsertAt(t.entries, p, e), ShiftHeads(t.heads, p)[b := At(p)]))
  {
    var es, hs := t.entries, t.heads;
    var es', hs' := InsertAt(es, p, e), ShiftHeads(hs, p)[b := At(p)];
    forall c | 0 <= c < |hs'| ensures hs'[c] == FirstCached(es', c) {
      var f := FirstCached(es, c);
      assert hs[c] == f;
      if c == b {
        FirstCachedUnique(es', c, At(p));
      } else {
        assert IsFirstCached(es', c, ShiftHead(f, p));
        FirstCachedUnique(es', c, ShiftHead(f, p));
      }
    }
  }

  /** The same insertion keeps every bucket's entries in one run. */
  lemma InsertAtContiguous<K, V>(es: seq<Entry<K, V>>, p: nat, e: Entry<K, V>)
    requires Contiguous(es) && p <= |es|
    requires IsFirstCached(es, e.cached, At(p)) || (IsFirstCached(es, e.cached, Empty) && p == 0)
    ensures Contiguous(InsertAt(es, p, e))
  {
    var es' := InsertAt(es, p, e);
    var b := e.cached;
    forall i, m, j | 0 <= i < m < j < |es'| && es'[i].cached == es'[j].cached
      ensures es'[m].cached == es'[i].cached
    {
      if j < p {
        assert es'[i] == es[i] && es'[m] == es[m] && es'[j] == es[j];
      } else if j == p {
        assert false;
      } else if i > p {
        assert es'[i] == es[i - 1] && es'[m] == es[m - 1] && es'[j] == es[j - 1];
      } else if i == p {
        assert es[j - 1].cached == b;
        assert IsFirstCached(es, b, At(p));
        if m > p + 1 {
          assert es[p].cached == b;
          assert es[m - 1].cached == es[p].cached;
        }
      } else {
        // i < p < j: the run holding positions i and j - 1 would contain b's first entry
        assert false;
      }
    }
  }

  // ---------------------------------------------------------------- placing

  /** Under reachability the scan from the head detects a duplicate exactly when the
      chain holds the key, so an entry is added exactly for a new key. */
  lemma PlaceAddsIffAbsent<K, V>(hash: K -> nat, t: Table<K, V>, k: K, v: V)
    requires Placeable(hash, t, k) && Reachable(t)
    ensures Place(hash, t, k, v).at != Empty <==> NoKey(t.entries, k)
  {
    LookupIsFullScan(hash, t, k);
  }

  /** Insert of a new key: the entry goes immediately before the bucket's previous head,
      or to the very front of the chain when the bucket was empty, and becomes the
      bucket's head; the other entries keep their order, every entry stays reachable and
      the map gains the pair. */
  lemma PlaceNewKey<K, V>(hash: K -> nat, t: Table<K, V>, k: K, v: V)
    requires Placeable(hash, t, k) && Reachable(t) && NoKey(t.entries, k)
    ensures var r := Place(hash, t, k, v); var b := Bucket(hash, k, |t.heads|);
            && r.at.At?
            && r.at.pos == (if t.heads[b].At? then t.heads[b].pos else 0)
            && r.table.entries == InsertAt(t.entries, r.at.pos, Entry(k, v, b))
            && r.table.heads[b] == r.at
            && Reachable(r.table)
            && Contents(r.table.entries) == Contents(t.entries)[k := v]
            && (UniqueKeys(t.entries) ==> UniqueKeys(r.table.entries))
  {
    var b := Bucket(hash, k, |t.heads|);
    PlaceAddsIffAbsent(hash, t, k, v);
    var r := Place(hash, t, k, v);
    var p := r.at.pos;
    InsertAtReachable(t, p, b, Entry(k, v, b));
    ContentsInsertAt(t.entries, p, Entry(k, v, b));
    if UniqueKeys(t.entries) {
      UniqueInsertAt(t.entries, p, Entry(k, v, b));
    }
  }

  /** Insert of a new key keeps the locality invariant: runs stay contiguous, each
      headed by its first entry. */
  lemma PlaceNewKeyLocal<K, V>(hash: K -> nat, t: Table<K, V>, k: K, v: V)
    requires Placeable(hash, t, k) && Local(t) && NoKey(t.entries, k)
    ensures Local(Place(hash, t, k, v).table)
  {
    var b := Bucket(hash, k, |t.heads|);
    var e := Entry(k, v, b);
    HeadsFirstReachable(hash, t);
    PlaceAddsIffAbsent(hash, t, k, v);
    var r := Place(hash, t, k, v);
    var p := if t.heads[b].At? then t.heads[b].pos else 0;
    assert r.table == Table(InsertAt(t.entries, p, e), ShiftHeads(t.heads, p)[b := At(p)]);
    assert t.heads[b] == FirstCached(t.entries, b);
    InsertAtHeadsFirst(t, p, b, e);
    InsertAtContiguous(t.entries, p, e);
  }

  /** Duplicate insert: nothing is added and no value changes, `end()` is returned and the
      bucket's head is overwritten with `end()`, so the key's own entry (and every other
      entry of the bucket) can no longer be reached. */
  lemma PlaceDuplicate<K, V>(hash: K -> nat, t: Table<K, V>, k: K, v: V)
    requires Placeable(hash, t, k) && Reachable(t) && !NoKey(t.entries, k)
    ensures var r := Place(hash, t, k, v); var b := Bucket(hash, k, |t.heads|);
            && r.at == Empty
            && r.table.entries == t.entries
            && r.table.heads == t.heads[b := Empty]
            && !Reachable(r.table)
            && Lookup(hash, r.table, k) == None
  {
    var b := Bucket(hash, k, |t.heads|);
    PlaceAddsIffAbsent(hash, t, k, v);
    var r := Place(hash, t, k, v);
    var i :| 0 <= i < |t.entries| && t.entries[i].key == k;
    assert r.table.entries[i].cached == b;
  }

  /** A duplicate insert followed by another insert of the same key: the second finds the
      bucket at `end()`, puts a second entry for the key at the front of the list, and its
      value is the one lookup then finds. */
  lemma DuplicateThenStoredTwice<K, V>(hash: K -> nat, t: Table<K, V>, k: K, v1: V, v2: V)
    requires Placeable(hash, t, k) && Reachable(t) && !NoKey(t.entries, k)
    ensures Placeable(hash, Place(hash, t, k, v1).table, k)
    ensures var r := Place(hash, Place(hash, t, k, v1).table, k, v2); var b := Bucket(hash, k, |t.heads|);
            && r.at == At(0)
            && r.table.entries == InsertAt(t.entries, 0, Entry(k, v2, b))
            && !UniqueKeys(r.table.entries)
            && Lookup(hash, r.table, k) == Some(0)
  {
    PlaceDuplicate(hash, t, k, v1);
    var t1 := Place(hash, t, k, v1).table;
    var r := Place(hash, t1, k, v2);
    var i :| 0 <= i < |t.entries| && t.entries[i].key == k;
    assert r.table.entries[0].key == k && r.table.entries[i + 1].key == k;
  }

  /** The corrected duplicate branch keeps reachability, so a repeated key is neither
      added nor lost. */
  lemma PlaceCorrectedKeepsReachable<K, V>(hash: K -> nat, t: Table<K, V>, k: K, v: V)
    requires Placeable(hash, t, k) && Reachable(t)
    ensures var r := PlaceCorrected(hash, t, k, v);
            && Reachable(r.table)
            && Contents(r.table.entries) == (if k in Contents(t.entries) then Contents(t.entries) else Contents(t.entries)[k := v])
            && (UniqueKeys(t.entries) ==> UniqueKeys(r.table.entries))
  {
    LookupIsFullScan(hash, t, k);
    ContentsHasKey(t.entries, k);
    if NoKey(t.entries, k) {
      PlaceNewKey(hash, t, k, v);
    }
  }

  // ---------------------------------------------------------------- insert

  /** Whatever `insert` does first, the table it places into is reachable and stands
      for the same map. */
  lemma LoadCheckKeeps<K, V>(hash: K -> nat, t: Table<K, V>, num: int, den: nat, k: K)
    requires InsertDefined(hash, t, num, den, k)
    requires LoadReached(t, num, den) || Reachable(t)
    ensures var t1 := if LoadReached(t, num, den) then Rehash(hash, t) else t;
            && Placeable(hash, t1, k) && Reachable(t1)
            && Contents(t1.entries) == Contents(t.entries)
            && (UniqueKeys(t.entries) ==> UniqueKeys(t1.entries))
  {
    if LoadReached(t, num, den) {
      var t1 := Rehash(hash, t);
      ContentsRecache(t.entries, t1.entries);
    }
  }

  /** `insert` is insert-if-absent on the map: a new key gains its value, a present key
      keeps its old one; keys stay distinct; and the table stays reachable exactly
      when the key was new (the duplicate branch clears the bucket's head). */
  lemma InsertMap<K, V>(hash: K -> nat, t: Table<K, V>, num: int, den: nat, k: K, v: V)
    requires InsertDefined(hash, t, num, den, k)
    requires LoadReached(t, num, den) || Reachable(t)
    requires UniqueKeys(t.entries)
    ensures var r := Insert(hash, t, num, den, k, v).table;
            && UniqueKeys(r.entries)
            && Contents(r.entries) == (if k in Contents(t.entries) then Contents(t.entries) else Contents(t.entries)[k := v])
            && (Reachable(r) <==> k !in Contents(t.entries))
  {
    LoadCheckKeeps(hash, t, num, den, k);
    var t1 := if LoadReached(t, num, den) then Rehash(hash, t) else t;
    ContentsHasKey(t1.entries, k);
    if NoKey(t1.entries, k) {
      PlaceNewKey(hash, t1, k, v);
    } else {
      PlaceDuplicate(hash, t1, k, v);
    }
  }

  /** Round trip: after inserting a new key into a reachable table, lookup finds it with
      the inserted value. */
  lemma InsertThenLookup<K, V>(hash: K -> nat, t: Table<K, V>, num: int, den: nat, k: K, v: V)
    requires InsertDefined(hash, t, num, den, k)
    requires LoadReached(t, num, den) || Reachable(t)
    requires UniqueKeys(t.entries) && k !in Contents(t.entries)
    ensures var r := Insert(hash, t, num, den, k, v).table;
            Lookup(hash, r, k).Some? && r.entries[Lookup(hash, r, k).value].value == v
  {
    InsertMap(hash, t, num, den, k, v);
    var r := Insert(hash, t, num, den, k, v).table;
    LookupMatchesContents(hash, r, k);
  }

  /** Without a rehash, inserting a new key keeps the locality invariant. */
  lemma InsertKeepsLocal<K, V>(hash: K -> nat, t: Table<K, V>, num: int, den: nat, k: K, v: V)
    requires InsertDefined(hash, t, num, den, k) && !LoadReached(t, num, den)
    requires Local(t) && k !in Contents(t.entries)
    ensures Local(Insert(hash, t, num, den, k, v).table)
  {
    ContentsHasKey(t.entries, k);
    PlaceNewKeyLocal(hash, t, k, v);
  }
}
