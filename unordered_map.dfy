/**
  `sparkle::unordered_map`: a `std::list` of nodes holding the pairs, and a vector of
  list iterators, one per bucket, each the bucket's head or `end()`. Every method is
  proved to change the state as the matching operation of the value model does.
*/
module Sparkle {
  import opened Wrappers
  import opened ChainTable
  import opened MapView
  import opened ListView

  /** A maximum load factor, held as the exact ratio of an integer to a positive denominator. */
  type Positive = n: nat | n > 0 witness 1

  class UnorderedMap<K(==), V> {
    /** The `Hasher` template argument. */
    const hash: K -> nat
    /** `elements_`: the list's nodes in list order, and the node each handle names. */
    var elements: seq<Handle>
    var nodes: map<Handle, Entry<K, V>>
    /** `buckets_`: `None` is `end()`, `Some(h)` an iterator to node h (erased or not). */
    var buckets: seq<Option<Handle>>
    /** `max_load_factor_` as maxNum / maxDen. */
    var maxNum: int
    var maxDen: Positive
    /** The allocator: the next node handle, newer than every handle in use. */
    var nextHandle: Handle

    /** The shape every method keeps: nodes are distinct and stored, at least one bucket
        exists, and every handle in use, erased or live, is older than the next one. */
    ghost predicate Wf()
      reads this
    {
      Distinct(elements) && Stored(elements, nodes) && |buckets| > 0 && Unused(elements, buckets, nextHandle)
    }

    /** The value model the object stands for. */
    ghost function Abs(): Table<K, V>
      reads this
      requires Stored(elements, nodes)
    {
      Table(EntriesOf(elements, nodes), HeadsOf(buckets, elements))
    }

    ghost predicate Valid()
      reads this
    {
      Wf() && WellFormed(hash, Abs())
    }

    /** The default constructor: an empty list, ten buckets at `end()`, maximum load factor 1. */
    constructor(hash: K -> nat)
      ensures Valid() && Abs() == EmptyTable() && this.hash == hash
      ensures maxNum == 1 && maxDen == 1
    {
      this.hash := hash;
      elements := [];
      nodes := map[];
      buckets := seq(InitialBucketCount, _ => None);
      maxNum := 1;
      maxDen := 1;
      nextHandle := 0;
    }

    /** `insert(key, value)`: rehash when the load factor equals the maximum; then put a
        new node at the front of the list when the bucket is at `end()`, before the
        bucket's head when the scan from the head does not find the key, and nowhere
        otherwise; set the bucket's head to the returned iterator, `end()` when nothing
        was added. */
    method Insert(k: K, v: V) returns (it: Option<Handle>)
      requires Valid() && InsertDefined(hash, Abs(), maxNum, maxDen, k)
      modifies this
      ensures maxNum == old(maxNum) && maxDen == old(maxDen)
      ensures Valid()
      ensures var r := ChainTable.Insert(hash, old(Abs()), old(maxNum), old(maxDen), k, v);
              Abs() == r.table && HeadOf(elements, it) == r.at
    {
      ghost var t := Abs();
      if |elements| * maxDen == maxNum * |buckets| {
        Rehash();
      }
      assert Abs() == if LoadReached(t, maxNum, maxDen) then ChainTable.Rehash(hash, t) else t;
      it := Emplace(k, v);
    }

    /** The placing half of `insert`, once the load check is done. */
    method Emplace(k: K, v: V) returns (it: Option<Handle>)
      requires Valid() && Placeable(hash, Abs(), k)
      modifies this
      ensures maxNum == old(maxNum) && maxDen == old(maxDen)
      ensures Valid()
      ensures var r := Place(hash, old(Abs()), k, v);
              Abs() == r.table && HeadOf(elements, it) == r.at
    {
      var b := hash(k) % |buckets|;
      if buckets[b] == None {
        PlaceNew(hash, elements, nodes, buckets, nextHandle, k, v, 0);
        it := Some(nextHandle);
        Store(InsertAt(elements, 0, nextHandle), nodes[nextHandle := Entry(k, v, b)], buckets[b := it], nextHandle + 1);
      } else {
        var u := Unique(k, b);
        if u {
          var p := IndexOf(elements, buckets[b].value);
          PlaceNew(hash, elements, nodes, buckets, nextHandle, k, v, p);
          it := Some(nextHandle);
          Store(InsertAt(elements, p, nextHandle), nodes[nextHandle := Entry(k, v, b)], buckets[b := it], nextHandle + 1);
        } else {
          PlaceDuplicate(hash, elements, nodes, buckets, nextHandle, k, v);
          it := None;
          Store(elements, nodes, buckets[b := it], nextHandle);
        }
      }
    }

    /** `operator[](key)` read through the returned reference: the value of the node the
        scan from the bucket's head finds. The source dereferences `end()` when the scan
        finds nothing; that case is excluded here. */
    method Get(k: K) returns (v: V)
      requires Valid() && Lookup(hash, Abs(), k).Some?
      ensures v == Abs().entries[Lookup(hash, Abs(), k).value].value
      ensures Reachable(Abs()) ==> k in Contents(Abs().entries) && v == Contents(Abs().entries)[k]
    {
      var p := Locate(k);
      v := nodes[elements[p]].value;
      if Reachable(Abs()) {
        LookupMatchesContents(hash, Abs(), k);
      }
    }

    /** `operator[](key) = value`: the value of the node the scan finds is replaced in place. */
    method Set(k: K, v: V)
      requires Valid() && Lookup(hash, Abs(), k).Some?
      modifies this
      ensures Valid() && Abs() == SetValue(hash, old(Abs()), k, v)
      ensures elements == old(elements) && buckets == old(buckets) && nextHandle == old(nextHandle)
      ensures maxNum == old(maxNum) && maxDen == old(maxDen)
    {
      var p := Locate(k);
      var e := nodes[elements[p]].(value := v);
      EntriesOfUpdate(elements, nodes, p, e);
      Store(elements, nodes[elements[p] := e], buckets, nextHandle);
    }

    /** `erase(key)`: the node the scan from the head finds is removed from the list; the
        bucket's head becomes the next node when that node caches the same bucket, and
        `end()` otherwise. Other buckets that named the erased node keep naming it. */
    method Erase(k: K)
      requires Valid() && Erasable(hash, Abs(), k)
      modifies this
      ensures Valid() && Abs() == ChainTable.Erase(hash, old(Abs()), k)
      ensures nextHandle == old(nextHandle) && maxNum == old(maxNum) && maxDen == old(maxDen)
    {
      var b := hash(k) % |buckets|;
      var p := Locate(k);
      var it := if p + 1 == |elements| || nodes[elements[p + 1]].cached != b then None else Some(elements[p + 1]);
      RemoveNode(elements, nodes, buckets, nextHandle, p, b, it);
      EraseNode(hash, elements, nodes, buckets, k, p, it);
      Store(RemoveAt(elements, p), nodes - {elements[p]}, buckets[b := it], nextHandle);
    }

    /** `set_max_load_factor(value)`. */
    method SetMaxLoadFactor(num: int, den: Positive)
      requires Valid()
      modifies this
      ensures Valid() && Abs() == old(Abs()) && maxNum == num && maxDen == den
      ensures elements == old(elements) && nodes == old(nodes) && buckets == old(buckets)
      ensures nextHandle == old(nextHandle)
    {
      maxNum, maxDen := num, den;
    }

    /** `load_factor()`: the number of nodes over the number of buckets, as an exact ratio;
        `insert` rehashes exactly when it equals the maximum. */
    method LoadFactor() returns (num: nat, den: Positive)
      requires Valid()
      ensures num == |Abs().entries| && den == |Abs().heads|
      ensures LoadReached(Abs(), maxNum, maxDen) <==> num * maxDen == maxNum * den
    {
      num, den := |elements|, |buckets|;
    }

    /** `bucket_count()`, as written: always one, whatever the number of buckets. */
    method BucketCount() returns (r: nat)
      requires Valid()
      ensures r == 1
      ensures r == |Abs().heads| <==> |buckets| == 1
    {
      r := 1;
    }

    /** `bucket_count()` as intended: the size of the bucket vector. */
    method CorrectedBucketCount() returns (r: nat)
      requires Valid()
      ensures r == |Abs().heads| && r > 0
    {
      r := |buckets|;
    }

    /** The list position of the node `std::find` reaches from key's bucket head. */
    method Locate(k: K) returns (p: nat)
      requires Valid() && Lookup(hash, Abs(), k).Some?
      ensures p == Lookup(hash, Abs(), k).value && p < |elements|
    {
      var b := hash(k) % |buckets|;
      assert Abs().heads[b] == At(IndexOf(elements, buckets[b].value));
      var f := FindFrom(IndexOf(elements, buckets[b].value), k);
      p := f.value;
    }

    /** Installs a new list, arena and bucket vector at once. */
    method Store(s: seq<Handle>, ns: map<Handle, Entry<K, V>>, bs: seq<Option<Handle>>, n: Handle)
      requires Distinct(s) && Stored(s, ns) && |bs| > 0 && Unused(s, bs, n)
      requires WellFormed(hash, Table(EntriesOf(s, ns), HeadsOf(bs, s)))
      modifies this
      ensures Valid() && Abs() == Table(EntriesOf(s, ns), HeadsOf(bs, s))
      ensures elements == s && nodes == ns && buckets == bs && nextHandle == n
      ensures maxNum == old(maxNum) && maxDen == old(maxDen)
    {
      elements, nodes, buckets, nextHandle := s, ns, bs, n;
    }

    /** `std::find(position start, elements_.end(), key)`. */
    method FindFrom(start: nat, k: K) returns (r: Option<nat>)
      requires Wf() && start <= |elements|
      ensures r == Find(Abs().entries, start, k)
    {
      var i := start;
      while i < |elements|
        invariant start <= i <= |elements|
        invariant Find(Abs().entries, start, k) == Find(Abs().entries, i, k)
        decreases |elements| - i
      {
        if nodes[elements[i]].key == k {
          return Some(i);
        }
        i := i + 1;
      }
      return None;
    }

    /** `unique(key, cached)`: the scan from bucket `cached`'s head to the end of the list
        does not find the key (trivially so from `end()`). */
    method Unique(k: K, cached: nat) returns (u: bool)
      requires Wf() && cached < |buckets| && !Abs().heads[cached].Dangling?
      ensures u <==> (Abs().heads[cached].At? ==> Find(Abs().entries, Abs().heads[cached].pos, k).None?)
    {
      match buckets[cached]
      case None =>
        u := true;
      case Some(h) =>
        var f := FindFrom(IndexOf(elements, h), k);
        u := f.None?;
    }

    /** `find_by_cached_key(cached_key)`: the first node caching the index, or `end()`. */
    method FindByCachedKey(x: nat) returns (it: Option<Handle>)
      requires Wf()
      ensures HeadOf(elements, it) == FirstCached(Abs().entries, x)
      ensures it.Some? ==> it.value in elements
    {
      var i := 0;
      while i < |elements|
        invariant i <= |elements|
        invariant FirstCached(Abs().entries, x) == FirstCachedFrom(Abs().entries, i, x)
      {
        if nodes[elements[i]].cached == x {
          IndexOfDistinct(elements, i);
          return Some(elements[i]);
        }
        i := i + 1;
      }
      return None;
    }

    /** `rehash()`: square the bucket count, set every head to `end()`, then walk the list
        once, giving an empty new bucket the head `find_by_cached_key` returns for the
        node's old index and recomputing the node's cached index. */
    method Rehash()
      requires Valid()
      modifies this
      ensures Valid() && Abs() == ChainTable.Rehash(hash, old(Abs()))
      ensures elements == old(elements) && nextHandle == old(nextHandle)
      ensures maxNum == old(maxNum) && maxDen == old(maxDen)
    {
      ghost var t0 := Abs();
      var m := |buckets| * |buckets|;
      ResetBuckets(m);
      ghost var target := RehashLoop(hash, t0.entries, seq(m, _ => Empty), 0, m);
      var i := 0;
      while i < |elements|
        invariant m > 0 && Wf() && |buckets| == m && elements == old(elements) && nextHandle == old(nextHandle)
        invariant maxNum == old(maxNum) && maxDen == old(maxDen)
        invariant i <= |elements|
        invariant RehashLoop(hash, Abs().entries, Abs().heads, i, m) == target
        decreases |elements| - i
      {
        RehashVisit(i);
        i := i + 1;
      }
      assert Abs() == target;
      assert target == ChainTable.Rehash(hash, t0);
    }

    /** The first half of `rehash`: the bucket vector grows to m buckets, all at `end()`. */
    method ResetBuckets(m: nat)
      requires Wf() && m > 0
      modifies this
      ensures Wf() && Abs() == Table(old(Abs()).entries, seq(m, _ => Empty))
      ensures elements == old(elements) && nodes == old(nodes) && nextHandle == old(nextHandle)
      ensures maxNum == old(maxNum) && maxDen == old(maxDen)
    {
      buckets := seq(m, _ => None);
      assert HeadsOf(buckets, elements) == seq(m, _ => Empty);
    }

    /** One turn of the loop of `rehash`, at list position i: the node's new bucket, if
        still at `end()`, gets the head `find_by_cached_key` returns for the node's old
        index, and the node caches its new index. */
    method RehashVisit(i: nat)
      requires Wf() && i < |elements|
      modifies this
      ensures Wf() && elements == old(elements) && nextHandle == old(nextHandle) && |buckets| == old(|buckets|)
      ensures maxNum == old(maxNum) && maxDen == old(maxDen)
      ensures RehashLoop(hash, Abs().entries, Abs().heads, i + 1, |buckets|)
              == RehashLoop(hash, old(Abs().entries), old(Abs().heads), i, |buckets|)
    {
      var h := elements[i];
      var e := nodes[h];
      var c := hash(e.key) % |buckets|;
      if buckets[c] == None {
        var it := FindByCachedKey(e.cached);
        RehashTurn(hash, elements, nodes, buckets, i, it);
        buckets := buckets[c := it];
      } else {
        RehashTurn(hash, elements, nodes, buckets, i, None);
      }
      nodes := nodes[h := e.(cached := c)];
    }
  }

  /** One turn of the rehash loop, on the list and the buckets, is one step of the value
      model's loop. */
  lemma RehashTurn<K, V>(hash: K -> nat, s: seq<Handle>, nodes: map<Handle, Entry<K, V>>,
                         buckets: seq<Option<Handle>>, i: nat, it: Option<Handle>)
    requires Distinct(s) && Stored(s, nodes) && i < |s| && |buckets| > 0
    requires var c := Bucket(hash, nodes[s[i]].key, |buckets|);
             buckets[c] == None ==> HeadOf(s, it) == FirstCached(EntriesOf(s, nodes), nodes[s[i]].cached)
    ensures var e := nodes[s[i]];
            var c := Bucket(hash, e.key, |buckets|);
            var buckets' := if buckets[c] == None then buckets[c := it] else buckets;
            var nodes' := nodes[s[i] := e.(cached := c)];
            && Stored(s, nodes')
            && RehashLoop(hash, EntriesOf(s, nodes'), HeadsOf(buckets', s), i + 1, |buckets|)
               == RehashLoop(hash, EntriesOf(s, nodes), HeadsOf(buckets, s), i, |buckets|)
  {
    var es, hs := EntriesOf(s, nodes), HeadsOf(buckets, s);
    var e := nodes[s[i]];
    var c := Bucket(hash, e.key, |buckets|);
    var buckets' := if buckets[c] == None then buckets[c := it] else buckets;
    EntriesOfUpdate(s, nodes, i, e.(cached := c));
    assert buckets[c] == None <==> hs[c] == Empty;
    if buckets[c] == None {
      HeadsOfUpdate(buckets, s, c, it);
    }
    assert HeadsOf(buckets', s) == if hs[c] == Empty then hs[c := FirstCached(es, es[i].cached)] else hs;
  }

  /** Every handle in use, in the list or in a bucket, is older than h. */
  ghost predicate Unused(s: seq<Handle>, buckets: seq<Option<Handle>>, h: Handle)
  {
    && (forall i :: 0 <= i < |s| ==> s[i] < h)
    && (forall b :: 0 <= b < |buckets| && buckets[b].Some? ==> buckets[b].value < h)
  }

  /** A new node h put at position p, the head of its bucket or the front of the list
      for an empty bucket, and made the bucket's head, is the value model's placement. */
  lemma PlaceNew<K, V>(hash: K -> nat, s: seq<Handle>, nodes: map<Handle, Entry<K, V>>,
                       buckets: seq<Option<Handle>>, h: Handle, k: K, v: V, p: nat)
    requires Distinct(s) && Stored(s, nodes) && |buckets| > 0 && Unused(s, buckets, h)
    requires WellFormed(hash, Table(EntriesOf(s, nodes), HeadsOf(buckets, s)))
    requires var b := Bucket(hash, k, |buckets|);
             || (buckets[b] == None && p == 0)
             || (buckets[b].Some? && buckets[b].value in s && p == IndexOf(s, buckets[b].value)
                 && Find(EntriesOf(s, nodes), p, k).None?)
    ensures var b := Bucket(hash, k, |buckets|);
            var s', nodes' := InsertAt(s, p, h), nodes[h := Entry(k, v, b)];
            && Distinct(s') && Stored(s', nodes') && Unused(s', buckets[b := Some(h)], h + 1)
            && Place(hash, Table(EntriesOf(s, nodes), HeadsOf(buckets, s)), k, v)
               == Placed(Table(EntriesOf(s', nodes'), HeadsOf(buckets[b := Some(h)], s')), HeadOf(s', Some(h)))
  {
    var b := Bucket(hash, k, |buckets|);
    var s' := InsertAt(s, p, h);
    assert h !in s;
    DistinctInsertAt(s, p, h);
    EntriesOfInsertAt(s, nodes, p, h, Entry(k, v, b));
    HeadsOfInsertAt(buckets, s, p, h);
    HeadsOfUpdate(buckets, s', b, Some(h));
    HeadOfInsertAt(s, p, h, Some(h));
  }

  /** A duplicate found from the bucket's head: nothing is added and the head is set to
      `end()`, as in the value model. */
  lemma PlaceDuplicate<K, V>(hash: K -> nat, s: seq<Handle>, nodes: map<Handle, Entry<K, V>>,
                             buckets: seq<Option<Handle>>, n: Handle, k: K, v: V)
    requires Distinct(s) && Stored(s, nodes) && |buckets| > 0 && Unused(s, buckets, n)
    requires WellFormed(hash, Table(EntriesOf(s, nodes), HeadsOf(buckets, s)))
    requires var b := Bucket(hash, k, |buckets|);
             buckets[b].Some? && buckets[b].value in s
             && Find(EntriesOf(s, nodes), IndexOf(s, buckets[b].value), k).Some?
    ensures var b := Bucket(hash, k, |buckets|);
            && Unused(s, buckets[b := None], n)
            && Place(hash, Table(EntriesOf(s, nodes), HeadsOf(buckets, s)), k, v)
            == Placed(Table(EntriesOf(s, nodes), HeadsOf(buckets[b := None], s)), Empty)
  {
    HeadsOfUpdate(buckets, s, Bucket(hash, k, |buckets|), None);
  }

  /** Removing position p keeps the list distinct, its nodes stored, and every handle in
      use, including a new head taken from the list, older than n. */
  lemma RemoveNode<K, V>(s: seq<Handle>, nodes: map<Handle, Entry<K, V>>,
                         buckets: seq<Option<Handle>>, n: Handle, p: nat, b: nat, it: Option<Handle>)
    requires Distinct(s) && Stored(s, nodes) && Unused(s, buckets, n) && p < |s| && b < |buckets|
    requires it.Some? ==> it.value in s
    ensures Distinct(RemoveAt(s, p)) && Stored(RemoveAt(s, p), nodes - {s[p]})
    ensures Unused(RemoveAt(s, p), buckets[b := it], n)
  {
    DistinctRemoveAt(s, p);
    EntriesOfRemoveAt(s, nodes, p);
  }

  /** Removing the node the scan finds and writing the bucket's new head, on the list and
      arena, is the value model's `erase`. */
  lemma EraseNode<K, V>(hash: K -> nat, s: seq<Handle>, nodes: map<Handle, Entry<K, V>>,
                        buckets: seq<Option<Handle>>, k: K, p: nat, it: Option<Handle>)
    requires Distinct(s) && Stored(s, nodes) && |buckets| > 0
    requires Erasable(hash, Table(EntriesOf(s, nodes), HeadsOf(buckets, s)), k)
    requires p == Lookup(hash, Table(EntriesOf(s, nodes), HeadsOf(buckets, s)), k).value
    requires it == if p + 1 == |s| || nodes[s[p + 1]].cached != Bucket(hash, k, |buckets|) then None else Some(s[p + 1])
    ensures Stored(RemoveAt(s, p), nodes - {s[p]})
    ensures Table(EntriesOf(RemoveAt(s, p), nodes - {s[p]}), HeadsOf(buckets[Bucket(hash, k, |buckets|) := it], RemoveAt(s, p)))
            == ChainTable.Erase(hash, Table(EntriesOf(s, nodes), HeadsOf(buckets, s)), k)
  {
    var t := Table(EntriesOf(s, nodes), HeadsOf(buckets, s));
    var b := Bucket(hash, k, |buckets|);
    var s' := RemoveAt(s, p);
    DistinctRemoveAt(s, p);
    EntriesOfRemoveAt(s, nodes, p);
    HeadsOfRemoveAt(buckets, s, p);
    HeadsOfUpdate(buckets, s', b, it);
    if it.Some? {
      assert s'[p] == s[p + 1];
      IndexOfDistinct(s', p);
    }
    assert HeadOf(s', it) == SuccessorHead(t.entries, p, b);
  }
}
