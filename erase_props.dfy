/**
  What `erase` does to the chain, to the heads and to the map the table stands for,
  for the rule as written and for the rule applied only to the bucket's head.
*/
module EraseProps {
  import opened Wrappers
  import opened ChainTable
  import opened MapView

  // ---------------------------------------------------------------- invariants of a removal

  /** Removing position p leaves every other bucket's first entry where `DropHead` puts it. */
  lemma RemoveAtFirstCached<K, V>(es: seq<Entry<K, V>>, p: nat, c: nat)
    requires p < |es| && FirstCached(es, c) != At(p)
    ensures FirstCached(RemoveAt(es, p), c) == DropHead(FirstCached(es, c), p)
  {
    var es' := RemoveAt(es, p);
    var f := FirstCached(es, c);
    if f.Empty? {
      FirstCachedUnique(es', c, Empty);
    } else if f.pos < p {
      FirstCachedUnique(es', c, At(f.pos));
    } else {
      assert es'[f.pos - 1] == es[f.pos];
      FirstCachedUnique(es', c, At(f.pos - 1));
    }
  }

  lemma RemoveAtContiguous<K, V>(es: seq<Entry<K, V>>, p: nat)
    requires p < |es| && Contiguous(es)
    ensures Contiguous(RemoveAt(es, p))
  {
    var es' := RemoveAt(es, p);
    forall i, m, j | 0 <= i < m < j < |es'| && es'[i].cached == es'[j].cached
      ensures es'[m].cached == es'[i].cached
    {
      var i0, m0, j0 := if i < p then i else i + 1, if m < p then m else m + 1, if j < p then j else j + 1;
      assert es'[i] == es[i0] && es'[m] == es[m0] && es'[j] == es[j0];
    }
  }

  // ---------------------------------------------------------------- the map

  /** Erase removes exactly the key from the map and keeps keys distinct (the chain is
      the same under both head rules). */
  lemma EraseMap<K, V>(hash: K -> nat, t: Table<K, V>, k: K)
    requires Erasable(hash, t, k) && UniqueKeys(t.entries)
    ensures UniqueKeys(Erase(hash, t, k).entries)
    ensures Contents(Erase(hash, t, k).entries) == Contents(t.entries) - {k}
    ensures EraseCorrected(hash, t, k).entries == Erase(hash, t, k).entries
  {
    var p := Lookup(hash, t, k).value;
    ContentsRemoveAt(t.entries, p);
    UniqueRemoveAt(t.entries, p);
  }

  /** A head dangles after erase exactly when it already dangled, or when it named the
      erased entry from another bucket (the erased bucket's own head is rewritten). */
  lemma EraseDangling<K, V>(hash: K -> nat, t: Table<K, V>, k: K, c: nat)
    requires Erasable(hash, t, k) && c < |t.heads|
    ensures var r := Erase(hash, t, k); var b := Bucket(hash, k, |t.heads|);
            r.heads[c].Dangling? <==> (t.heads[c].Dangling? || (c != b && t.heads[c] == At(Lookup(hash, t, k).value)))
  {
  }

  /** While every head is its bucket's first entry, erase leaves no head dangling. */
  lemma EraseNoDangling<K, V>(hash: K -> nat, t: Table<K, V>, k: K)
    requires Erasable(hash, t, k) && HeadsFirst(t)
    ensures NoDangling(Erase(hash, t, k))
  {
    var p := Lookup(hash, t, k).value;
    var b := Bucket(hash, k, |t.heads|);
    forall c | 0 <= c < |t.heads| ensures !Erase(hash, t, k).heads[c].Dangling? {
      EraseDangling(hash, t, k, c);
      assert t.heads[c] == FirstCached(t.entries, c);
      if c != b && t.heads[c] == At(p) {
        assert false;
      }
    }
  }

  // ---------------------------------------------------------------- locality

  /** Erasing the entry the bucket's head names keeps the locality invariant: the
      successor is the new head when it is of the same bucket, and otherwise the
      bucket has no entries left. */
  lemma EraseHeadKeepsLocal<K, V>(hash: K -> nat, t: Table<K, V>, k: K)
    requires Erasable(hash, t, k) && Local(t)
    requires t.heads[Bucket(hash, k, |t.heads|)] == At(Lookup(hash, t, k).value)
    ensures Local(Erase(hash, t, k))
  {
    var es := t.entries;
    var p := Lookup(hash, t, k).value;
    var b := Bucket(hash, k, |t.heads|);
    var r := Erase(hash, t, k);
    var es' := RemoveAt(es, p);
    assert r.entries == es';
    assert es[p].cached == b;
    assert t.heads[b] == FirstCached(es, b);
    forall c | 0 <= c < |r.heads| ensures r.heads[c] == FirstCached(es', c) {
      if c == b {
        var h := SuccessorHead(es, p, b);
        if h.At? {
          FirstCachedUnique(es', b, At(p));
        } else {
          forall j | 0 <= j < |es'| ensures es'[j].cached != b {
            if j >= p {
              assert es'[j] == es[j + 1];
              if j + 1 > p + 1 && es[j + 1].cached == b {
                assert false;
              }
            }
          }
          FirstCachedUnique(es', b, Empty);
        }
      } else {
        assert t.heads[c] == FirstCached(es, c);
        RemoveAtFirstCached(es, p, c);
      }
    }
    RemoveAtContiguous(es, p);
  }

  /** The corrected rule keeps the locality invariant whatever entry is erased. */
  lemma EraseCorrectedKeepsLocal<K, V>(hash: K -> nat, t: Table<K, V>, k: K)
    requires Erasable(hash, t, k) && Local(t)
    ensures Local(EraseCorrected(hash, t, k))
  {
    var es := t.entries;
    var p := Lookup(hash, t, k).value;
    var b := Bucket(hash, k, |t.heads|);
    if t.heads[b] == At(p) {
      EraseHeadKeepsLocal(hash, t, k);
      assert EraseCorrected(hash, t, k) == Erase(hash, t, k);
    } else {
      var r := EraseCorrected(hash, t, k);
      var es' := RemoveAt(es, p);
      assert es[p].cached == b;
      forall c | 0 <= c < |r.heads| ensures r.heads[c] == FirstCached(es', c) {
        assert t.heads[c] == FirstCached(es, c);
        RemoveAtFirstCached(es, p, c);
      }
      RemoveAtContiguous(es, p);
    }
  }

  /** After the corrected erase the key is gone and every other key is still found:
      the table stays local, hence reachable, and stands for the map minus the key. */
  lemma EraseCorrectedMap<K, V>(hash: K -> nat, t: Table<K, V>, k: K)
    requires Erasable(hash, t, k) && Local(t) && UniqueKeys(t.entries)
    ensures var r := EraseCorrected(hash, t, k);
            && Local(r) && Reachable(r) && UniqueKeys(r.entries)
            && Contents(r.entries) == Contents(t.entries) - {k}
            && Lookup(hash, r, k) == None
  {
    var r := EraseCorrected(hash, t, k);
    EraseMap(hash, t, k);
    EraseCorrectedKeepsLocal(hash, t, k);
    HeadsFirstReachable(hash, r);
    LookupMatchesContents(hash, r, k);
  }

  /** The rule as written, erasing an entry that is not its bucket's head: the bucket's
      head moves past the earlier entries of the run, so the key the old head named is
      still in the map but lookup no longer finds it. */
  lemma EraseInteriorStrands<K, V>(hash: K -> nat, t: Table<K, V>, k: K)
    requires Erasable(hash, t, k) && Local(t) && UniqueKeys(t.entries)
    requires t.heads[Bucket(hash, k, |t.heads|)] != At(Lookup(hash, t, k).value)
    ensures var b := Bucket(hash, k, |t.heads|); var r := Erase(hash, t, k);
            && t.heads[b].At? && t.heads[b].pos < Lookup(hash, t, k).value
            && t.entries[t.heads[b].pos].key in Contents(r.entries)
            && Lookup(hash, r, t.entries[t.heads[b].pos].key) == None
            && !Reachable(r)
  {
    var es := t.entries;
    var p := Lookup(hash, t, k).value;
    var b := Bucket(hash, k, |t.heads|);
    var r := Erase(hash, t, k);
    var es' := RemoveAt(es, p);
    var q := t.heads[b].pos;
    assert q < p;
    assert t.heads[b] == FirstCached(es, b);
    var kq := es[q].key;
    assert es'[q] == es[q];
    ContentsHasKey(es', kq);
    assert Bucket(hash, kq, |t.heads|) == b;
    if r.heads[b].At? {
      assert r.heads[b] == At(p);
      FindUnique(es', p, kq, None);
    }
    assert es'[q].cached == b;
  }
}
