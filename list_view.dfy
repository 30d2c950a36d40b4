/**
  The list `elements_` as the class holds it: a sequence of node handles in list order
  and a map from handle to node. Iterators are handles; an iterator whose node has been
  erased is a handle no longer in the sequence. This module relates that state to the
  chain positions of the value model.
*/
module ListView {
  import opened Wrappers
  import opened ChainTable

  /** The identity of a list node, which an iterator to it keeps while other nodes come and go. */
  type Handle = nat

  predicate Distinct(s: seq<Handle>)
  {
    forall i, j :: 0 <= i < j < |s| ==> s[i] != s[j]
  }

  /** The position of node h in the list. */
  function IndexOf(s: seq<Handle>, h: Handle): (i: nat)
    requires h in s
    ensures i < |s| && s[i] == h && forall j :: 0 <= j < i ==> s[j] != h
  {
    if s[0] == h then 0 else 1 + IndexOf(s[1..], h)
  }

  /** The head an iterator stands for: `end()`, a live node's position, or an erased node. */
  function HeadOf(s: seq<Handle>, it: Option<Handle>): Head
  {
    match it
    case None => Empty
    case Some(h) => if h in s then At(IndexOf(s, h)) else Dangling
  }

  function HeadsOf(buckets: seq<Option<Handle>>, s: seq<Handle>): (r: seq<Head>)
    ensures |r| == |buckets| && forall b :: 0 <= b < |buckets| ==> r[b] == HeadOf(s, buckets[b])
  {
    seq(|buckets|, b requires 0 <= b < |buckets| => HeadOf(s, buckets[b]))
  }

  predicate Stored<K, V>(s: seq<Handle>, nodes: map<Handle, Entry<K, V>>)
  {
    forall i :: 0 <= i < |s| ==> s[i] in nodes
  }

  /** The nodes of the list, in list order. */
  function EntriesOf<K, V>(s: seq<Handle>, nodes: map<Handle, Entry<K, V>>): (r: seq<Entry<K, V>>)
    requires Stored(s, nodes)
    ensures |r| == |s| && forall i :: 0 <= i < |s| ==> r[i] == nodes[s[i]]
  {
    seq(|s|, i requires 0 <= i < |s| => nodes[s[i]])
  }

  // ---------------------------------------------------------------- positions

  /** In a list without repeated nodes, node s[i] is at position i. */
  lemma IndexOfDistinct(s: seq<Handle>, i: nat)
    requires Distinct(s) && i < |s|
    ensures IndexOf(s, s[i]) == i
  {
  }

  lemma DistinctInsertAt(s: seq<Handle>, p: nat, h: Handle)
    requires Distinct(s) && p <= |s| && h !in s
    ensures Distinct(InsertAt(s, p, h))
  {
    var s' := InsertAt(s, p, h);
    forall i, j | 0 <= i < j < |s'| ensures s'[i] != s'[j] {
      if i != p && j != p {
        var i0, j0 := if i < p then i else i - 1, if j < p then j else j - 1;
        assert s'[i] == s[i0] && s'[j] == s[j0];
      } else {
        assert s'[p] == h;
        assert s'[i] in s || s'[j] in s;
      }
    }
  }

  lemma DistinctRemoveAt(s: seq<Handle>, p: nat)
    requires Distinct(s) && p < |s|
    ensures Distinct(RemoveAt(s, p)) && s[p] !in RemoveAt(s, p)
  {
    var s' := RemoveAt(s, p);
    forall i, j | 0 <= i < j < |s'| ensures s'[i] != s'[j] {
      var i0, j0 := if i < p then i else i + 1, if j < p then j else j + 1;
      assert s'[i] == s[i0] && s'[j] == s[j0];
    }
    forall i | 0 <= i < |s'| ensures s'[i] != s[p] {
      var i0 := if i < p then i else i + 1;
      assert s'[i] == s[i0];
    }
  }

  /** A node inserted at position p moves every iterator at or after p one place on
      and leaves the others; an iterator to the new node stands for position p. */
  lemma HeadOfInsertAt(s: seq<Handle>, p: nat, h: Handle, it: Option<Handle>)
    requires Distinct(s) && p <= |s| && h !in s
    ensures HeadOf(InsertAt(s, p, h), it) == if it == Some(h) then At(p) else ShiftHead(HeadOf(s, it), p)
  {
    var s' := InsertAt(s, p, h);
    DistinctInsertAt(s, p, h);
    if it.Some? {
      var g := it.value;
      if g == h {
        IndexOfDistinct(s', p);
      } else if g in s {
        var q := IndexOf(s, g);
        var q' := if q < p then q else q + 1;
        assert s'[q'] == g;
        IndexOfDistinct(s', q');
      } else {
        assert g !in s' by {
          forall i | 0 <= i < |s'| ensures s'[i] != g {
            if i != p {
              var i0 := if i < p then i else i - 1;
              assert s'[i] == s[i0];
            }
          }
        }
      }
    }
  }

  /** Erasing the node at position p leaves an iterator to it dangling and moves every
      iterator after p one place back. */
  lemma HeadOfRemoveAt(s: seq<Handle>, p: nat, it: Option<Handle>)
    requires Distinct(s) && p < |s|
    ensures HeadOf(RemoveAt(s, p), it) == DropHead(HeadOf(s, it), p)
  {
    var s' := RemoveAt(s, p);
    DistinctRemoveAt(s, p);
    if it.Some? {
      var g := it.value;
      if g in s && g != s[p] {
        var q := IndexOf(s, g);
        assert q != p;
        var q' := if q < p then q else q - 1;
        assert s'[q'] == g;
        IndexOfDistinct(s', q');
      } else if g in s {
        IndexOfDistinct(s, p);
      } else {
        assert g !in s' by {
          forall i | 0 <= i < |s'| ensures s'[i] != g {
            var i0 := if i < p then i else i + 1;
            assert s'[i] == s[i0];
          }
        }
      }
    }
  }

  lemma HeadsOfInsertAt(buckets: seq<Option<Handle>>, s: seq<Handle>, p: nat, h: Handle)
    requires Distinct(s) && p <= |s| && h !in s
    requires forall b :: 0 <= b < |buckets| ==> buckets[b] != Some(h)
    ensures HeadsOf(buckets, InsertAt(s, p, h)) == ShiftHeads(HeadsOf(buckets, s), p)
  {
    forall b | 0 <= b < |buckets|
      ensures HeadsOf(buckets, InsertAt(s, p, h))[b] == ShiftHeads(HeadsOf(buckets, s), p)[b]
    {
      HeadOfInsertAt(s, p, h, buckets[b]);
    }
  }

  lemma HeadsOfRemoveAt(buckets: seq<Option<Handle>>, s: seq<Handle>, p: nat)
    requires Distinct(s) && p < |s|
    ensures HeadsOf(buckets, RemoveAt(s, p)) == DropHeads(HeadsOf(buckets, s), p)
  {
    forall b | 0 <= b < |buckets|
      ensures HeadsOf(buckets, RemoveAt(s, p))[b] == DropHeads(HeadsOf(buckets, s), p)[b]
    {
      HeadOfRemoveAt(s, p, buckets[b]);
    }
  }

  lemma HeadsOfUpdate(buckets: seq<Option<Handle>>, s: seq<Handle>, b: nat, it: Option<Handle>)
    requires b < |buckets|
    ensures HeadsOf(buckets[b := it], s) == HeadsOf(buckets, s)[b := HeadOf(s, it)]
  {
  }

  // ---------------------------------------------------------------- nodes

  lemma EntriesOfInsertAt<K, V>(s: seq<Handle>, nodes: map<Handle, Entry<K, V>>, p: nat, h: Handle, e: Entry<K, V>)
    requires Stored(s, nodes) && p <= |s| && h !in s
    ensures Stored(InsertAt(s, p, h), nodes[h := e])
    ensures EntriesOf(InsertAt(s, p, h), nodes[h := e]) == InsertAt(EntriesOf(s, nodes), p, e)
  {
  }

  lemma EntriesOfRemoveAt<K, V>(s: seq<Handle>, nodes: map<Handle, Entry<K, V>>, p: nat)
    requires Stored(s, nodes) && Distinct(s) && p < |s|
    ensures Stored(RemoveAt(s, p), nodes - {s[p]})
    ensures EntriesOf(RemoveAt(s, p), nodes - {s[p]}) == RemoveAt(EntriesOf(s, nodes), p)
  {
    DistinctRemoveAt(s, p);
  }

  lemma EntriesOfUpdate<K, V>(s: seq<Handle>, nodes: map<Handle, Entry<K, V>>, i: nat, e: Entry<K, V>)
    requires Stored(s, nodes) && Distinct(s) && i < |s|
    ensures Stored(s, nodes[s[i] := e])
    ensures EntriesOf(s, nodes[s[i] := e]) == EntriesOf(s, nodes)[i := e]
  {
  }
}
