/**
  The repaired table: with the rebuilding rehash, the duplicate branch that leaves the
  head alone and the erase that rewrites only its own bucket's head, every table reached
  from the empty one is sound, and the table behaves as a map.
*/
module CorrectedTable {
  import opened Wrappers
  import opened ChainTable
  import opened MapView
  import opened InsertProps
  import opened EraseProps
  import opened RehashProps

  /** The invariant of the repaired table. */
  ghost predicate Sound<K, V>(hash: K -> nat, t: Table<K, V>)
  {
    WellFormed(hash, t) && Local(t) && UniqueKeys(t.entries)
  }

  /** The table a default-constructed map starts from is sound and stands for the empty map. */
  lemma EmptySound<K, V>(hash: K -> nat)
    ensures Sound(hash, EmptyTable<K, V>()) && Contents(EmptyTable<K, V>().entries) == map[]
  {
    var t := EmptyTable<K, V>();
    forall c | 0 <= c < |t.heads| ensures t.heads[c] == FirstCached(t.entries, c) {
      FirstCachedUnique(t.entries, c, Empty);
    }
  }

  /** A duplicate is detected by the repaired insert exactly when the map holds the key. */
  lemma PlaceCorrectedFindsDuplicate<K, V>(hash: K -> nat, t: Table<K, V>, k: K)
    requires WellFormed(hash, t) && Reachable(t)
    ensures var h := t.heads[Bucket(hash, k, |t.heads|)];
            (h.At? && Find(t.entries, h.pos, k).Some?) <==> k in Contents(t.entries)
  {
    LookupMatchesContents(hash, t, k);
  }

  /** The repaired insert keeps the table sound and is insert-if-absent on the map; it
      returns a position exactly when the key was new, and that position holds the new
      entry. */
  lemma InsertCorrectedSound<K, V>(hash: K -> nat, t: Table<K, V>, num: int, den: nat, k: K, v: V)
    requires Sound(hash, t) && InsertDefined(hash, t, num, den, k)
    ensures var r := InsertCorrected(hash, t, num, den, k, v);
            && Sound(hash, r.table)
            && Contents(r.table.entries) == (if k in Contents(t.entries) then Contents(t.entries) else Contents(t.entries)[k := v])
            && (r.at.At? <==> k !in Contents(t.entries))
            && (r.at == Empty <==> k in Contents(t.entries))
            && (r.at.At? ==> r.at.pos < |r.table.entries| && r.table.entries[r.at.pos].key == k
                             && r.table.entries[r.at.pos].value == v)
  {
    var t1 := if LoadReached(t, num, den) then RehashRebuild(hash, t) else t;
    if LoadReached(t, num, den) {
      RehashRebuildMap(hash, t);
    }
    assert Local(t1) && UniqueKeys(t1.entries) && Contents(t1.entries) == Contents(t.entries);
    HeadsFirstReachable(hash, t1);
    PlaceCorrectedFindsDuplicate(hash, t1, k);
    ContentsHasKey(t1.entries, k);
    if k !in Contents(t1.entries) {
      PlaceNewKey(hash, t1, k, v);
      PlaceNewKeyLocal(hash, t1, k, v);
    }
  }

  /** The repaired erase keeps the table sound and removes exactly the key. */
  lemma EraseCorrectedSound<K, V>(hash: K -> nat, t: Table<K, V>, k: K)
    requires Sound(hash, t) && k in Contents(t.entries)
    ensures Erasable(hash, t, k)
    ensures Sound(hash, EraseCorrected(hash, t, k))
    ensures Contents(EraseCorrected(hash, t, k).entries) == Contents(t.entries) - {k}
  {
    HeadsFirstReachable(hash, t);
    LookupMatchesContents(hash, t, k);
    EraseCorrectedMap(hash, t, k);
  }

  /** In a sound table lookup agrees with the map. */
  lemma SoundLookup<K, V>(hash: K -> nat, t: Table<K, V>, k: K)
    requires Sound(hash, t)
    ensures Lookup(hash, t, k).Some? <==> k in Contents(t.entries)
    ensures Lookup(hash, t, k).Some? ==> t.entries[Lookup(hash, t, k).value].value == Contents(t.entries)[k]
  {
    HeadsFirstReachable(hash, t);
    LookupMatchesContents(hash, t, k);
  }

  /** The repaired insert of a key the map already holds adds nothing and changes neither
      the map nor soundness. */
  lemma InsertCorrectedPresent<K, V>(hash: K -> nat, t: Table<K, V>, num: int, den: nat, k: K, v: V)
    requires Sound(hash, t) && InsertDefined(hash, t, num, den, k) && k in Contents(t.entries)
    ensures var r := InsertCorrected(hash, t, num, den, k, v);
            r.at == Empty && Sound(hash, r.table) && Contents(r.table.entries) == Contents(t.entries)
  {
    InsertCorrectedSound(hash, t, num, den, k, v);
  }

  /** With the repaired insert a second insert of a key keeps the first value. */
  lemma InsertCorrectedTwice<K, V>(hash: K -> nat, t: Table<K, V>, num: int, den: nat, k: K, v1: V, v2: V)
    requires Sound(hash, t) && InsertDefined(hash, t, num, den, k) && k !in Contents(t.entries)
    requires InsertDefined(hash, InsertCorrected(hash, t, num, den, k, v1).table, num, den, k)
    ensures var r := InsertCorrected(hash, InsertCorrected(hash, t, num, den, k, v1).table, num, den, k, v2);
            && r.at == Empty
            && Lookup(hash, r.table, k).Some? && r.table.entries[Lookup(hash, r.table, k).value].value == v1
  {
    var t1 := InsertCorrected(hash, t, num, den, k, v1).table;
    InsertCorrectedSound(hash, t, num, den, k, v1);
    assert Contents(t1.entries) == Contents(t.entries)[k := v1];
    InsertCorrectedPresent(hash, t1, num, den, k, v2);
    SoundLookup(hash, InsertCorrected(hash, t1, num, den, k, v2).table, k);
  }

  /** Erasing a key just inserted into a sound table gives back its map. */
  lemma InsertThenEraseCorrected<K, V>(hash: K -> nat, t: Table<K, V>, num: int, den: nat, k: K, v: V)
    requires Sound(hash, t) && InsertDefined(hash, t, num, den, k) && k !in Contents(t.entries)
    ensures var r := InsertCorrected(hash, t, num, den, k, v).table;
            && Erasable(hash, r, k)
            && Contents(EraseCorrected(hash, r, k).entries) == Contents(t.entries)
  {
    var r := InsertCorrected(hash, t, num, den, k, v).table;
    InsertCorrectedSound(hash, t, num, den, k, v);
    assert Sound(hash, r) && Contents(r.entries) == Contents(t.entries)[k := v];
    EraseCorrectedSound(hash, r, k);
    MapRemoveExt(Contents(t.entries)[k := v], Contents(t.entries), k);
  }
}
