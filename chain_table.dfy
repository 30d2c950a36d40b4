/**
  The value model of `sparkle::unordered_map`.

  The list `elements_` is a sequence of entries in list order. A slot of `buckets_`
  is a `Head`: `Empty` stands for `elements_.end()`, `At(p)` for an iterator to the
  entry at chain position p, and `Dangling` for an iterator to a node that has
  since been erased. The hash function is a parameter of every operation.
*/
module ChainTable {
  import opened Wrappers

  /** A list node (`node_t`): the key/value pair and the bucket index cached when it was placed. */
  datatype Entry<K, V> = Entry(key: K, value: V, cached: nat)

  datatype Head = Empty | At(pos: nat) | Dangling

  datatype Table<K, V> = Table(entries: seq<Entry<K, V>>, heads: seq<Head>)

  /** What `insert` leaves behind: the new table and the iterator it returns. */
  datatype Placed<K, V> = Placed(table: Table<K, V>, at: Head)

  /** The size `buckets_` is created with. */
  const InitialBucketCount: nat := 10

  function EmptyTable<K, V>(): (t: Table<K, V>)
    ensures |t.entries| == 0 && |t.heads| == InitialBucketCount
    ensures forall b :: 0 <= b < |t.heads| ==> t.heads[b] == Empty
  {
    Table([], seq(InitialBucketCount, _ => Empty))
  }

  /** `Hasher{}(key) % buckets_.size()` */
  function Bucket<K>(hash: K -> nat, k: K, n: nat): (b: nat)
    requires n > 0
    ensures b < n
  {
    hash(k) % n
  }

  /** What every operation keeps: a bucket exists, every cached index is the key's
      bucket for the current bucket count, and every live head is a chain position. */
  ghost predicate WellFormed<K, V>(hash: K -> nat, t: Table<K, V>)
  {
    && |t.heads| > 0
    && (forall i :: 0 <= i < |t.entries| ==>
          t.entries[i].cached == Bucket(hash, t.entries[i].key, |t.heads|))
    && (forall b :: 0 <= b < |t.heads| && t.heads[b].At? ==> t.heads[b].pos < |t.entries|)
  }

  // ---------------------------------------------------------------- sequences

  function InsertAt<T>(s: seq<T>, p: nat, x: T): (r: seq<T>)
    requires p <= |s|
    ensures |r| == |s| + 1 && r[p] == x
    ensures forall j :: 0 <= j < p ==> r[j] == s[j]
    ensures forall j :: p < j < |r| ==> r[j] == s[j - 1]
  {
    seq(|s| + 1, j requires 0 <= j <= |s| => if j < p then s[j] else if j == p then x else s[j - 1])
  }

  function RemoveAt<T>(s: seq<T>, p: nat): (r: seq<T>)
    requires p < |s|
    ensures |r| == |s| - 1
    ensures forall j :: 0 <= j < p ==> r[j] == s[j]
    ensures forall j :: p <= j < |r| ==> r[j] == s[j + 1]
  {
    seq(|s| - 1, j requires 0 <= j < |s| - 1 => if j < p then s[j] else s[j + 1])
  }

  /** Where a head ends up when an entry is inserted at position p (list iterators are stable). */
  function ShiftHead(h: Head, p: nat): Head
  {
    if h.At? && h.pos >= p then At(h.pos + 1) else h
  }

  function ShiftHeads(hs: seq<Head>, p: nat): (r: seq<Head>)
    ensures |r| == |hs|
    ensures forall b :: 0 <= b < |hs| ==> r[b] == ShiftHead(hs[b], p)
  {
    seq(|hs|, b requires 0 <= b < |hs| => ShiftHead(hs[b], p))
  }

  /** Where a head ends up when the entry at position p is erased: one naming it dangles. */
  function DropHead(h: Head, p: nat): Head
  {
    if h.At? && h.pos == p then Dangling
    else if h.At? && h.pos > p then At(h.pos - 1)
    else h
  }

  function DropHeads(hs: seq<Head>, p: nat): (r: seq<Head>)
    ensures |r| == |hs|
    ensures forall b :: 0 <= b < |hs| ==> r[b] == DropHead(hs[b], p)
  {
    seq(|hs|, b requires 0 <= b < |hs| => DropHead(hs[b], p))
  }

  // ---------------------------------------------------------------- scans

  /** `std::find(first, elements_.end(), key)` where `first` is chain position `from`:
      the first position at or after `from` holding the key, if any. */
  function Find<K(==), V>(es: seq<Entry<K, V>>, from: nat, k: K): (r: Option<nat>)
    ensures r.Some? ==> from <= r.value < |es| && es[r.value].key == k
    ensures forall j :: from <= j < |es| && (r.None? || j < r.value) ==> es[j].key != k
    decreases |es| - from
  {
    if from >= |es| then None
    else if es[from].key == k then Some(from)
    else Find(es, from + 1, k)
  }

  /** r is the answer of `find_by_cached_key(x)`: the first entry caching x, or end(). */
  ghost predicate IsFirstCached<K, V>(es: seq<Entry<K, V>>, x: nat, r: Head)
  {
    match r
    case At(q) => q < |es| && es[q].cached == x && forall j :: 0 <= j < q ==> es[j].cached != x
    case Empty => forall j :: 0 <= j < |es| ==> es[j].cached != x
    case Dangling => false
  }

  /** The loop of `find_by_cached_key`, from chain position `from` on. */
  function FirstCachedFrom<K, V>(es: seq<Entry<K, V>>, from: nat, x: nat): (r: Head)
    requires from <= |es|
    ensures r.At? ==> from <= r.pos < |es| && es[r.pos].cached == x
    ensures !r.Dangling?
    ensures forall j :: from <= j < |es| && (r.Empty? || j < r.pos) ==> es[j].cached != x
    decreases |es| - from
  {
    if from == |es| then Empty
    else if es[from].cached == x then At(from)
    else FirstCachedFrom(es, from + 1, x)
  }

  function FirstCached<K, V>(es: seq<Entry<K, V>>, x: nat): (r: Head)
    ensures IsFirstCached(es, x, r)
  {
    FirstCachedFrom(es, 0, x)
  }

  lemma FirstCachedUnique<K, V>(es: seq<Entry<K, V>>, x: nat, r: Head)
    requires IsFirstCached(es, x, r)
    ensures FirstCached(es, x) == r
  {
  }

  /** The scan used by `operator[]`, `unique` and `erase`: from the key's bucket head
      to the end of the WHOLE chain. An empty or dangling head finds nothing. */
  function Lookup<K(==), V>(hash: K -> nat, t: Table<K, V>, k: K): (r: Option<nat>)
    requires |t.heads| > 0
    ensures r.Some? ==> r.value < |t.entries| && t.entries[r.value].key == k
  {
    match t.heads[Bucket(hash, k, |t.heads|)]
    case At(p) => Find(t.entries, p, k)
    case _ => None
  }

  // ---------------------------------------------------------------- invariants

  /** Every entry's bucket head is a live position at or before the entry, so the
      head-to-end scan reaches it. */
  ghost predicate Reachable<K, V>(t: Table<K, V>)
  {
    forall i :: 0 <= i < |t.entries| ==>
      && t.entries[i].cached < |t.heads|
      && t.heads[t.entries[i].cached].At?
      && t.heads[t.entries[i].cached].pos <= i
  }

  /** Every bucket's head is its first entry, or end() when it has none. */
  ghost predicate HeadsFirst<K, V>(t: Table<K, V>)
  {
    forall b :: 0 <= b < |t.heads| ==> t.heads[b] == FirstCached(t.entries, b)
  }

  /** The entries of each bucket form one run of the chain. */
  ghost predicate Contiguous<K, V>(es: seq<Entry<K, V>>)
  {
    forall i, m, j :: 0 <= i < m < j < |es| && es[i].cached == es[j].cached ==> es[m].cached == es[i].cached
  }

  /** Locality: each bucket is one contiguous run headed by its first entry. */
  ghost predicate Local<K, V>(t: Table<K, V>)
  {
    HeadsFirst(t) && Contiguous(t.entries)
  }

  ghost predicate UniqueKeys<K, V>(es: seq<Entry<K, V>>)
  {
    forall i, j :: 0 <= i < j < |es| ==> es[i].key != es[j].key
  }

  ghost predicate NoKey<K, V>(es: seq<Entry<K, V>>, k: K)
  {
    forall i :: 0 <= i < |es| ==> es[i].key != k
  }

  ghost predicate NoDangling<K, V>(t: Table<K, V>)
  {
    forall b :: 0 <= b < |t.heads| ==> !t.heads[b].Dangling?
  }

  /** A bucket headed by its first entry is reached from that head. */
  lemma HeadsFirstReachable<K, V>(hash: K -> nat, t: Table<K, V>)
    requires WellFormed(hash, t) && HeadsFirst(t)
    ensures Reachable(t) && NoDangling(t)
  {
    forall i | 0 <= i < |t.entries|
      ensures t.entries[i].cached < |t.heads| && t.heads[t.entries[i].cached].At?
      ensures t.heads[t.entries[i].cached].pos <= i
    {
      var c := t.entries[i].cached;
      assert c < |t.heads|;
      assert t.heads[c] == FirstCached(t.entries, c);
    }
    forall b | 0 <= b < |t.heads| ensures !t.heads[b].Dangling? {
      assert t.heads[b] == FirstCached(t.entries, b);
    }
  }

  // ---------------------------------------------------------------- insert

  /** `load_factor_ == max_load_factor_`, with the maximum held as the exact ratio num/den. */
  predicate LoadReached<K, V>(t: Table<K, V>, num: int, den: nat)
    ensures den > 0 && |t.heads| > 0 ==>
              (LoadReached(t, num, den) <==> (|t.entries| as real) / (|t.heads| as real) == (num as real) / (den as real))
  {
    RatioEquality(|t.entries|, |t.heads|, num, den);
    |t.entries| * den == num * |t.heads|
  }

  /** Two fractions with positive denominators are equal exactly when their cross products are. */
  lemma RatioEquality(a: int, b: int, c: int, d: int)
    ensures b > 0 && d > 0 ==> (a * d == c * b <==> (a as real) / (b as real) == (c as real) / (d as real))
  {
    if b > 0 && d > 0 {
      var x, y := (a as real) / (b as real), (c as real) / (d as real);
      assert x * (b as real) == a as real;
      assert y * (d as real) == c as real;
      assert (a * d) as real == (a as real) * (d as real);
      assert (c * b) as real == (c as real) * (b as real);
      if x == y {
        assert (a as real) * (d as real) == x * (b as real) * (d as real);
      }
      if a * d == c * b {
        assert x * (b as real) * (d as real) == y * (d as real) * (b as real);
      }
    }
  }

  /** What the placing half of `insert` needs: a bucket head that is not dangling. */
  ghost predicate Placeable<K, V>(hash: K -> nat, t: Table<K, V>, k: K)
  {
    WellFormed(hash, t) && !t.heads[Bucket(hash, k, |t.heads|)].Dangling?
  }

  /** Lines 65-79 of `insert`, after the load check: front of the chain for an empty
      bucket; otherwise before the bucket head unless the scan finds the key, in which
      case nothing is added, `end()` is returned and the head is overwritten with it. */
  function Place<K(==), V>(hash: K -> nat, t: Table<K, V>, k: K, v: V): (r: Placed<K, V>)
    requires Placeable(hash, t, k)
    ensures WellFormed(hash, r.table) && |r.table.heads| == |t.heads|
    ensures NoDangling(t) ==> NoDangling(r.table)
  {
    var b := Bucket(hash, k, |t.heads|);
    var e := Entry(k, v, b);
    match t.heads[b]
    case Empty =>
      Placed(Table(InsertAt(t.entries, 0, e), ShiftHeads(t.heads, 0)[b := At(0)]), At(0))
    case At(p) =>
      if Find(t.entries, p, k).None? then
        Placed(Table(InsertAt(t.entries, p, e), ShiftHeads(t.heads, p)[b := At(p)]), At(p))
      else
        Placed(Table(t.entries, t.heads[b := Empty]), Empty)
  }

  /** `Place` with the duplicate branch repaired: the head is left as it was. */
  function PlaceCorrected<K(==), V>(hash: K -> nat, t: Table<K, V>, k: K, v: V): (r: Placed<K, V>)
    requires Placeable(hash, t, k)
    ensures WellFormed(hash, r.table) && |r.table.heads| == |t.heads|
  {
    var b := Bucket(hash, k, |t.heads|);
    if t.heads[b].At? && Find(t.entries, t.heads[b].pos, k).Some? then Placed(t, Empty)
    else Place(hash, t, k, v)
  }

  ghost predicate InsertDefined<K, V>(hash: K -> nat, t: Table<K, V>, num: int, den: nat, k: K)
  {
    WellFormed(hash, t) && (LoadReached(t, num, den) || !t.heads[Bucket(hash, k, |t.heads|)].Dangling?)
  }

  /** `insert`: rehash when the load factor equals the maximum, then place. */
  function Insert<K(==), V>(hash: K -> nat, t: Table<K, V>, num: int, den: nat, k: K, v: V): (r: Placed<K, V>)
    requires InsertDefined(hash, t, num, den, k)
    ensures WellFormed(hash, r.table) && (NoDangling(t) ==> NoDangling(r.table))
    ensures |r.table.heads| == if LoadReached(t, num, den) then |t.heads| * |t.heads| else |t.heads|
  {
    var t1 := if LoadReached(t, num, den) then Rehash(hash, t) else t;
    Place(hash, t1, k, v)
  }

  /** `insert` with both repairs: the rebuilding rehash and the duplicate branch that
      leaves the head alone. */
  function InsertCorrected<K(==), V>(hash: K -> nat, t: Table<K, V>, num: int, den: nat, k: K, v: V): (r: Placed<K, V>)
    requires InsertDefined(hash, t, num, den, k)
    ensures WellFormed(hash, r.table)
    ensures |r.table.heads| == if LoadReached(t, num, den) then |t.heads| * |t.heads| else |t.heads|
  {
    var t1 := if LoadReached(t, num, den) then RehashRebuild(hash, t) else t;
    PlaceCorrected(hash, t1, k, v)
  }

  // ---------------------------------------------------------------- operator[]

  /** `operator[](key) = value`: the value of the entry the scan from the head finds is
      replaced; nothing else changes. */
  function SetValue<K(==), V>(hash: K -> nat, t: Table<K, V>, k: K, v: V): (r: Table<K, V>)
    requires |t.heads| > 0 && Lookup(hash, t, k).Some?
    ensures WellFormed(hash, t) ==> WellFormed(hash, r)
  {
    var p := Lookup(hash, t, k).value;
    Table(t.entries[p := t.entries[p].(value := v)], t.heads)
  }

  // ---------------------------------------------------------------- erase

  /** What `erase` needs: the scan from the head finds the key (otherwise it erases `end()`). */
  ghost predicate Erasable<K, V>(hash: K -> nat, t: Table<K, V>, k: K)
  {
    WellFormed(hash, t) && Lookup(hash, t, k).Some?
  }

  /** The head `erase` writes for bucket b after removing position p: the successor when
      it caches b, `end()` otherwise (lines 99-102). */
  function SuccessorHead<K, V>(es: seq<Entry<K, V>>, p: nat, b: nat): (h: Head)
    requires p < |es|
    ensures h.At? ==> h.pos == p && p + 1 < |es| && es[p + 1].cached == b
    ensures h.At? <==> p + 1 < |es| && es[p + 1].cached == b
    ensures !h.Dangling?
  {
    if p + 1 == |es| || es[p + 1].cached != b then Empty else At(p)
  }

  /** `erase`, as written: the head rule is applied whether or not the erased entry was the head. */
  function Erase<K(==), V>(hash: K -> nat, t: Table<K, V>, k: K): (r: Table<K, V>)
    requires Erasable(hash, t, k)
    ensures WellFormed(hash, r) && |r.heads| == |t.heads| && |r.entries| == |t.entries| - 1
  {
    var b := Bucket(hash, k, |t.heads|);
    var p := Lookup(hash, t, k).value;
    Table(RemoveAt(t.entries, p), DropHeads(t.heads, p)[b := SuccessorHead(t.entries, p, b)])
  }

  /** `erase` with the head rule applied only when the erased entry is the bucket's head. */
  function EraseCorrected<K(==), V>(hash: K -> nat, t: Table<K, V>, k: K): (r: Table<K, V>)
    requires Erasable(hash, t, k)
    ensures WellFormed(hash, r) && |r.heads| == |t.heads| && |r.entries| == |t.entries| - 1
  {
    var b := Bucket(hash, k, |t.heads|);
    var p := Lookup(hash, t, k).value;
    var rest := DropHeads(t.heads, p);
    Table(RemoveAt(t.entries, p), if t.heads[b] == At(p) then rest[b := SuccessorHead(t.entries, p, b)] else rest)
  }

  // ---------------------------------------------------------------- rehash

  /** The loop of `rehash` from position i on, over m buckets: entries before i already
      cache their new bucket, those from i on still cache the old one. */
  function RehashLoop<K, V>(hash: K -> nat, es: seq<Entry<K, V>>, hs: seq<Head>, i: nat, m: nat): (r: Table<K, V>)
    requires m > 0 && |hs| == m && i <= |es|
    ensures |r.heads| == m && |r.entries| == |es|
    ensures forall j :: 0 <= j < i ==> r.entries[j] == es[j]
    ensures forall j :: i <= j < |es| ==> r.entries[j] == es[j].(cached := Bucket(hash, es[j].key, m))
    decreases |es| - i
  {
    if i == |es| then Table(es, hs)
    else
      var c := Bucket(hash, es[i].key, m);
      var hs' := if hs[c] == Empty then hs[c := FirstCached(es, es[i].cached)] else hs;
      RehashLoop(hash, es[i := es[i].(cached := c)], hs', i + 1, m)
  }

  /** The loop invariant of `rehash`, relating the state at position i to the chain es0 it started on. */
  ghost predicate RehashInv<K, V>(hash: K -> nat, es0: seq<Entry<K, V>>, es: seq<Entry<K, V>>, hs: seq<Head>, i: nat, m: nat)
  {
    && m > 0 && |hs| == m && |es| == |es0| && i <= |es|
    && (forall j :: 0 <= j < i ==> es[j] == es0[j].(cached := Bucket(hash, es0[j].key, m)))
    && (forall j :: i <= j < |es| ==> es[j] == es0[j])
    && (forall c :: 0 <= c < m ==>
          hs[c].Empty? || (hs[c].At? && hs[c].pos < i && exists j :: 0 <= j < i && es[j].cached == c))
    && (forall j :: 0 <= j < i ==>
          es[j].cached < m && hs[es[j].cached].At? && hs[es[j].cached].pos <= j)
  }

  /** One turn of the rehash loop keeps its invariant. */
  lemma RehashStep<K, V>(hash: K -> nat, es0: seq<Entry<K, V>>, es: seq<Entry<K, V>>, hs: seq<Head>, i: nat, m: nat)
    requires RehashInv(hash, es0, es, hs, i, m) && i < |es|
    ensures var c := Bucket(hash, es[i].key, m);
            RehashInv(hash, es0, es[i := es[i].(cached := c)],
                      if hs[c] == Empty then hs[c := FirstCached(es, es[i].cached)] else hs, i + 1, m)
  {
    var c := Bucket(hash, es[i].key, m);
    var f := FirstCached(es, es[i].cached);
    assert f.At? && f.pos <= i;
    var hs' := if hs[c] == Empty then hs[c := f] else hs;
    var es' := es[i := es[i].(cached := c)];
    assert hs'[c].At? && hs'[c].pos <= i;
    forall d | 0 <= d < m
      ensures hs'[d].Empty? || (hs'[d].At? && hs'[d].pos < i + 1 && exists j :: 0 <= j < i + 1 && es'[j].cached == d)
    {
      if hs'[d].At? {
        if d == c {
          assert es'[i].cached == d;
        } else {
          assert hs'[d] == hs[d];
          var j :| 0 <= j < i && es[j].cached == d;
          assert es'[j].cached == d;
        }
      }
    }
    forall j | 0 <= j < i + 1
      ensures es'[j].cached < m && hs'[es'[j].cached].At? && hs'[es'[j].cached].pos <= j
    {
      if j < i {
        assert es'[j] == es[j];
        if es[j].cached != c { assert hs'[es[j].cached] == hs[es[j].cached]; }
      }
    }
  }

  lemma {:induction false} RehashLoopKeeps<K, V>(hash: K -> nat, es0: seq<Entry<K, V>>, es: seq<Entry<K, V>>, hs: seq<Head>, i: nat, m: nat)
    requires RehashInv(hash, es0, es, hs, i, m)
    ensures RehashInv(hash, es0, RehashLoop(hash, es, hs, i, m).entries, RehashLoop(hash, es, hs, i, m).heads, |es0|, m)
    decreases |es| - i
  {
    if i < |es| {
      var c := Bucket(hash, es[i].key, m);
      RehashStep(hash, es0, es, hs, i, m);
      RehashLoopKeeps(hash, es0, es[i := es[i].(cached := c)],
                      if hs[c] == Empty then hs[c := FirstCached(es, es[i].cached)] else hs, i + 1, m);
    }
  }

  /** `rehash`: square the bucket count, clear every head, then walk the chain once,
      recomputing each cached index and setting an empty new bucket's head to
      `find_by_cached_key` of the entry's old index. */
  function Rehash<K, V>(hash: K -> nat, t: Table<K, V>): (r: Table<K, V>)
    requires |t.heads| > 0
    ensures |r.heads| == |t.heads| * |t.heads| && |r.entries| == |t.entries|
    ensures forall j :: 0 <= j < |t.entries| ==>
              r.entries[j] == t.entries[j].(cached := Bucket(hash, t.entries[j].key, |r.heads|))
    ensures WellFormed(hash, r) && NoDangling(r) && Reachable(r)
    ensures forall c :: 0 <= c < |r.heads| && r.heads[c].At? ==>
              exists j :: 0 <= j < |r.entries| && r.entries[j].cached == c
  {
    var m := |t.heads| * |t.heads|;
    var hs: seq<Head> := seq(m, _ => Empty);
    RehashLoopKeeps(hash, t.entries, t.entries, hs, 0, m);
    RehashLoop(hash, t.entries, hs, 0, m)
  }

  /** The rehash loop with the choice of head repaired: an empty new bucket is headed by
      the entry being visited, the first of that bucket in list order. */
  function RehashOwnHeadLoop<K, V>(hash: K -> nat, es: seq<Entry<K, V>>, hs: seq<Head>, i: nat, m: nat): (r: Table<K, V>)
    requires m > 0 && |hs| == m && i <= |es|
    ensures |r.heads| == m && |r.entries| == |es|
    ensures forall j :: 0 <= j < i ==> r.entries[j] == es[j]
    ensures forall j :: i <= j < |es| ==> r.entries[j] == es[j].(cached := Bucket(hash, es[j].key, m))
    decreases |es| - i
  {
    if i == |es| then Table(es, hs)
    else
      var c := Bucket(hash, es[i].key, m);
      var hs' := if hs[c] == Empty then hs[c := At(i)] else hs;
      RehashOwnHeadLoop(hash, es[i := es[i].(cached := c)], hs', i + 1, m)
  }

  /** The loop invariant of the repaired loop: every head is the first visited entry of
      its bucket, or `end()` when no visited entry is in it. */
  ghost predicate OwnHeadInv<K, V>(es: seq<Entry<K, V>>, hs: seq<Head>, i: nat, m: nat)
  {
    && |hs| == m && i <= |es|
    && (forall j :: 0 <= j < i ==> es[j].cached < m)
    && (forall c :: 0 <= c < m ==>
          || (hs[c].Empty? && forall j :: 0 <= j < i ==> es[j].cached != c)
          || (hs[c].At? && hs[c].pos < i && es[hs[c].pos].cached == c
              && forall j :: 0 <= j < hs[c].pos ==> es[j].cached != c))
  }

  lemma OwnHeadStep<K, V>(hash: K -> nat, es: seq<Entry<K, V>>, hs: seq<Head>, i: nat, m: nat)
    requires m > 0 && OwnHeadInv(es, hs, i, m) && i < |es|
    ensures var c := Bucket(hash, es[i].key, m);
            OwnHeadInv(es[i := es[i].(cached := c)], if hs[c] == Empty then hs[c := At(i)] else hs, i + 1, m)
  {
    var c := Bucket(hash, es[i].key, m);
    var es' := es[i := es[i].(cached := c)];
    var hs' := if hs[c] == Empty then hs[c := At(i)] else hs;
    forall d | 0 <= d < m
      ensures || (hs'[d].Empty? && forall j :: 0 <= j < i + 1 ==> es'[j].cached != d)
              || (hs'[d].At? && hs'[d].pos < i + 1 && es'[hs'[d].pos].cached == d
                  && forall j :: 0 <= j < hs'[d].pos ==> es'[j].cached != d)
    {
      if d == c && hs[c] == Empty {
        assert hs'[d] == At(i) && es'[i].cached == d;
      } else {
        assert hs'[d] == hs[d];
      }
    }
  }

  lemma {:induction false} OwnHeadLoopKeeps<K, V>(hash: K -> nat, es: seq<Entry<K, V>>, hs: seq<Head>, i: nat, m: nat)
    requires m > 0 && OwnHeadInv(es, hs, i, m)
    ensures var r := RehashOwnHeadLoop(hash, es, hs, i, m); OwnHeadInv(r.entries, r.heads, |es|, m)
    decreases |es| - i
  {
    if i < |es| {
      var c := Bucket(hash, es[i].key, m);
      OwnHeadStep(hash, es, hs, i, m);
      OwnHeadLoopKeeps(hash, es[i := es[i].(cached := c)], if hs[c] == Empty then hs[c := At(i)] else hs, i + 1, m);
    }
  }

  /** `rehash` with only the choice of head repaired: the bucket count is squared, the
      list keeps its order, every entry is recached, and every bucket is headed by its
      first entry. */
  function RehashOwnHead<K, V>(hash: K -> nat, t: Table<K, V>): (r: Table<K, V>)
    requires |t.heads| > 0
    ensures |r.heads| == |t.heads| * |t.heads| && |r.entries| == |t.entries|
    ensures forall j :: 0 <= j < |t.entries| ==>
              r.entries[j] == t.entries[j].(cached := Bucket(hash, t.entries[j].key, |r.heads|))
    ensures WellFormed(hash, r) && HeadsFirst(r)
  {
    var m := |t.heads| * |t.heads|;
    var hs: seq<Head> := seq(m, _ => Empty);
    OwnHeadLoopKeeps(hash, t.entries, hs, 0, m);
    var r := RehashOwnHeadLoop(hash, t.entries, hs, 0, m);
    forall c | 0 <= c < m ensures r.heads[c] == FirstCached(r.entries, c) {
      FirstCachedUnique(r.entries, c, r.heads[c]);
    }
    r
  }

  /** The entries of es from position i on, placed one after another into acc as
      `insert` places a new key. */
  function RebuildFrom<K(==), V>(hash: K -> nat, es: seq<Entry<K, V>>, i: nat, acc: Table<K, V>): (r: Table<K, V>)
    requires i <= |es| && WellFormed(hash, acc) && NoDangling(acc)
    ensures WellFormed(hash, r) && NoDangling(r) && |r.heads| == |acc.heads|
    decreases |es| - i
  {
    if i == |es| then acc
    else RebuildFrom(hash, es, i + 1, Place(hash, acc, es[i].key, es[i].value).table)
  }

  /** `rehash` repaired: square the bucket count and rebuild the chain by placing every
      entry anew, so each bucket is again one run headed by its first entry. */
  function RehashRebuild<K(==), V>(hash: K -> nat, t: Table<K, V>): (r: Table<K, V>)
    requires |t.heads| > 0
    ensures WellFormed(hash, r) && NoDangling(r) && |r.heads| == |t.heads| * |t.heads|
  {
    var m := |t.heads| * |t.heads|;
    RebuildFrom(hash, t.entries, 0, Table([], seq(m, _ => Empty)))
  }
}
