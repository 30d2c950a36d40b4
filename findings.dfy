/**
  Concrete runs of the table as written that exhibit its defects, replaying the
  scenarios of `src/main.cpp` where it has them.
*/
module Findings {
  import opened Wrappers
  import opened ChainTable
  import opened MapView

  /** `util::hash<int>`: the key squared. */
  function Square(k: nat): nat { k * k }

  /** The test's `no_action_hash`: the key itself. */
  function Identity(k: nat): nat { k }

  function E(k: nat, c: nat): Entry<nat, string> { Entry(k, "", c) }

  /** The first two inserts of the erase test: 1 and 2 under the squared hash. */
  lemma EraseTestFirst()
    ensures var t2 := Insert(Square, Insert(Square, EmptyTable(), 1, 1, 1, "").table, 1, 1, 2, "").table;
            && t2.entries == [E(2, 4), E(1, 1)] && |t2.heads| == 10
            && t2.heads[1] == At(1) && t2.heads[4] == At(0) && WellFormed(Square, t2)
  {
    var t0: Table<nat, string> := EmptyTable();
    var t1 := Insert(Square, t0, 1, 1, 1, "").table;
    assert t1.entries == [E(1, 1)];
    assert t1.heads[1] == At(0) && t1.heads[4] == Empty;
    var t2 := Insert(Square, t1, 1, 1, 2, "").table;
    assert t2.entries == [E(2, 4), E(1, 1)];
  }

  /** The last two inserts of the erase test: 11 joins bucket 1 in front of 1, 22 joins
      bucket 4 in front of 2. */
  lemma EraseTestSecond(t2: Table<nat, string>)
    requires t2.entries == [E(2, 4), E(1, 1)] && |t2.heads| == 10
    requires t2.heads[1] == At(1) && t2.heads[4] == At(0) && WellFormed(Square, t2)
    ensures var t4 := Insert(Square, Insert(Square, t2, 1, 1, 11, "").table, 1, 1, 22, "").table;
            && t4.entries == [E(22, 4), E(2, 4), E(11, 1), E(1, 1)] && |t4.heads| == 10
            && t4.heads[1] == At(2) && t4.heads[4] == At(0) && WellFormed(Square, t4)
  {
    var t3 := Insert(Square, t2, 1, 1, 11, "").table;
    assert Find(t2.entries, 1, 11) == None;
    assert t3.entries == [E(2, 4), E(11, 1), E(1, 1)];
    assert t3.heads[1] == At(1) && t3.heads[4] == At(0);
    var t4 := Insert(Square, t3, 1, 1, 22, "").table;
    assert Find(t3.entries, 0, 22) == None;
    assert t4.entries == [E(22, 4), E(2, 4), E(11, 1), E(1, 1)];
  }

  /** Erasing 2 from the erase test's table, as written and with the corrected head rule. */
  lemma EraseTestErase(t4: Table<nat, string>)
    requires t4.entries == [E(22, 4), E(2, 4), E(11, 1), E(1, 1)] && |t4.heads| == 10
    requires t4.heads[1] == At(2) && t4.heads[4] == At(0) && WellFormed(Square, t4)
    ensures && Erasable(Square, t4, 2)
            && 22 in Contents(Erase(Square, t4, 2).entries)
            && Lookup(Square, Erase(Square, t4, 2), 22) == None
            && Lookup(Square, EraseCorrected(Square, t4, 2), 22) == Some(0)
  {
    assert Find(t4.entries, 0, 2) == Some(1);
    var r := Erase(Square, t4, 2);
    assert r.entries == [E(22, 4), E(11, 1), E(1, 1)];
    assert r.heads[4] == Empty;
    ContentsHasKey(r.entries, 22);
    var r' := EraseCorrected(Square, t4, 2);
    assert r'.entries == r.entries && r'.heads[4] == At(0);
  }

  /** The erase test: keys 1, 2, 11 and 22 under the squared hash land in buckets 1, 4, 1
      and 4; erasing 2, which follows 22 in bucket 4, sets that bucket's head to `end()`,
      so 22 is still in the list but no longer found. Erasing with the head rule applied
      only to the bucket's own head keeps 22 found. */
  lemma EraseStrandsScenario()
    ensures var t4 := Insert(Square, Insert(Square, Insert(Square, Insert(Square,
                        EmptyTable(), 1, 1, 1, "").table, 1, 1, 2, "").table, 1, 1, 11, "").table, 1, 1, 22, "").table;
            && t4.entries == [E(22, 4), E(2, 4), E(11, 1), E(1, 1)]
            && Erasable(Square, t4, 2)
            && 22 in Contents(Erase(Square, t4, 2).entries)
            && Lookup(Square, Erase(Square, t4, 2), 22) == None
            && Lookup(Square, EraseCorrected(Square, t4, 2), 22) == Some(0)
  {
    EraseTestFirst();
    var t2 := Insert(Square, Insert(Square, EmptyTable(), 1, 1, 1, "").table, 1, 1, 2, "").table;
    EraseTestSecond(t2);
    EraseTestErase(Insert(Square, Insert(Square, t2, 1, 1, 11, "").table, 1, 1, 22, "").table);
  }

  /** Inserting key 1 a second time stores nothing but sets bucket 1's head to `end()`,
      so 1 is no longer found; a third insert then stores the key a second time, in
      front of the first entry, and its value replaces the first one in lookups. */
  lemma DuplicateInsertScenario()
    ensures var t1 := Insert(Identity, EmptyTable(), 1, 1, 1, "a").table;
            var p2 := Insert(Identity, t1, 1, 1, 1, "b");
            var t3 := Insert(Identity, p2.table, 1, 1, 1, "c").table;
            && p2.at == Empty && p2.table.entries == t1.entries
            && Lookup(Identity, p2.table, 1) == None && 1 in Contents(p2.table.entries)
            && t3.entries == [Entry(1, "c", 1), Entry(1, "a", 1)]
            && !UniqueKeys(t3.entries)
            && Lookup(Identity, t3, 1) == Some(0)
  {
    var t0: Table<nat, string> := EmptyTable();
    var t1 := Insert(Identity, t0, 1, 1, 1, "a").table;
    assert t1.entries == [Entry(1, "a", 1)] && t1.heads[1] == At(0);
    var p2 := Insert(Identity, t1, 1, 1, 1, "b");
    assert Find(t1.entries, 0, 1) == Some(0);
    assert p2.at == Empty && p2.table.entries == t1.entries && p2.table.heads[1] == Empty;
    ContentsHasKey(p2.table.entries, 1);
    var t3 := Insert(Identity, p2.table, 1, 1, 1, "c").table;
    assert t3.entries == [Entry(1, "c", 1), Entry(1, "a", 1)] && t3.heads[1] == At(0);
    assert t3.entries[0].key == t3.entries[1].key;
    assert Find(t3.entries, 0, 1) == Some(0);
  }

  /** The first three inserts of the rehash test: 11, 22 and 2 under the identity hash. */
  lemma RehashTestFirst()
    ensures var t3 := Insert(Identity, Insert(Identity, Insert(Identity,
                        EmptyTable(), 1, 1, 11, "").table, 1, 1, 22, "").table, 1, 1, 2, "").table;
            && t3.entries == [E(2, 2), E(22, 2), E(11, 1)] && |t3.heads| == 10
            && t3.heads[3] == Empty && WellFormed(Identity, t3)
  {
    var t0: Table<nat, string> := EmptyTable();
    var t1 := Insert(Identity, t0, 1, 1, 11, "").table;
    assert t1.entries == [E(11, 1)];
    assert t1.heads[1] == At(0) && t1.heads[2] == Empty && t1.heads[3] == Empty;
    var t2 := Insert(Identity, t1, 1, 1, 22, "").table;
    assert t2.entries == [E(22, 2), E(11, 1)];
    assert t2.heads[2] == At(0) && t2.heads[3] == Empty;
    var t3 := Insert(Identity, t2, 1, 1, 2, "").table;
    assert Find(t2.entries, 0, 2) == None;
    assert t3.entries == [E(2, 2), E(22, 2), E(11, 1)];
  }

  /** The fourth insert of the rehash test: 33 goes to the front of the list. */
  lemma RehashTestFourth(t3: Table<nat, string>)
    requires t3.entries == [E(2, 2), E(22, 2), E(11, 1)] && |t3.heads| == 10
    requires t3.heads[3] == Empty && WellFormed(Identity, t3)
    ensures var t4 := Insert(Identity, t3, 1, 1, 33, "").table;
            t4.entries == [E(33, 3), E(2, 2), E(22, 2), E(11, 1)] && |t4.heads| == 10
  {
    assert !LoadReached(t3, 1, 1);
    var t4 := Insert(Identity, t3, 1, 1, 33, "").table;
    assert t4.entries == InsertAt(t3.entries, 0, E(33, 3));
  }

  /** The table of the rehash test before its last insert: keys 11, 22, 2 and 33 under
      the identity hash, stored newest bucket first. */
  lemma RehashTestTable()
    ensures var t4 := Insert(Identity, Insert(Identity, Insert(Identity, Insert(Identity,
                        EmptyTable(), 1, 1, 11, "").table, 1, 1, 22, "").table, 1, 1, 2, "").table, 1, 1, 33, "").table;
            t4.entries == [E(33, 3), E(2, 2), E(22, 2), E(11, 1)] && |t4.heads| == 10
  {
    RehashTestFirst();
    var t3 := Insert(Identity, Insert(Identity, Insert(Identity,
                EmptyTable(), 1, 1, 11, "").table, 1, 1, 22, "").table, 1, 1, 2, "").table;
    RehashTestFourth(t3);
  }

  /** The rehash of that table to 100 buckets, turn by turn: bucket 22's head is taken
      from `find_by_cached_key(2)`, which by then finds key 2's entry. */
  lemma RehashTestRehash(t: Table<nat, string>)
    requires t.entries == [E(33, 3), E(2, 2), E(22, 2), E(11, 1)] && |t.heads| == 10
    ensures var r := Rehash(Identity, t);
            && r.entries == [E(33, 33), E(2, 2), E(22, 22), E(11, 11)]
            && r.heads[3] == Empty && r.heads[2] == At(1) && r.heads[22] == At(1)
  {
    var m := 100;
    var es0 := t.entries;
    var hs0: seq<Head> := seq(m, _ => Empty);
    var es1, hs1 := es0[0 := E(33, 33)], hs0[33 := At(0)];
    assert RehashLoop(Identity, es0, hs0, 0, m) == RehashLoop(Identity, es1, hs1, 1, m);
    var es2, hs2 := es1[1 := E(2, 2)], hs1[2 := At(1)];
    FirstCachedUnique(es1, 2, At(1));
    assert RehashLoop(Identity, es1, hs1, 1, m) == RehashLoop(Identity, es2, hs2, 2, m);
    RehashTestRehashTail(es2, hs2);
  }

  /** The last two turns of that rehash: 22 takes `find_by_cached_key(2)`, which is key
      2's entry, and 11 heads bucket 11. */
  lemma RehashTestRehashTail(es2: seq<Entry<nat, string>>, hs2: seq<Head>)
    requires es2 == [E(33, 33), E(2, 2), E(22, 2), E(11, 1)]
    requires |hs2| == 100 && hs2[2] == At(1) && hs2[3] == Empty && hs2[11] == Empty && hs2[22] == Empty
    ensures var r := RehashLoop(Identity, es2, hs2, 2, 100);
            && r.entries == [E(33, 33), E(2, 2), E(22, 22), E(11, 11)]
            && r.heads[3] == Empty && r.heads[2] == At(1) && r.heads[22] == At(1)
  {
    var m := 100;
    var es3, hs3 := es2[2 := E(22, 22)], hs2[22 := At(1)];
    FirstCachedUnique(es2, 2, At(1));
    assert RehashLoop(Identity, es2, hs2, 2, m) == RehashLoop(Identity, es3, hs3, 3, m);
    var es4, hs4 := es3[3 := E(11, 11)], hs3[11 := At(3)];
    FirstCachedUnique(es3, 1, At(3));
    assert RehashLoop(Identity, es3, hs3, 3, m) == RehashLoop(Identity, es4, hs4, 4, m);
  }

  /** The last insert of the rehash test: the load factor has reached the maximum, so the
      table is rehashed to 100 buckets and 3 goes to the front; bucket 22's head names
      key 2's entry. */
  lemma RehashTestInsert(t: Table<nat, string>)
    requires t.entries == [E(33, 3), E(2, 2), E(22, 2), E(11, 1)] && |t.heads| == 10
    requires WellFormed(Identity, t)
    ensures LoadReached(t, |t.entries|, |t.heads|)
    ensures var r := Insert(Identity, t, |t.entries|, |t.heads|, 3, "").table;
            && r.entries == [E(3, 3), E(33, 33), E(2, 2), E(22, 22), E(11, 11)]
            && r.heads[22] == At(2) && r.heads[2] == At(2)
  {
    RehashTestRehash(t);
    var rt := Rehash(Identity, t);
    assert rt.heads[3] == Empty;
    assert Insert(Identity, t, 4, 10, 3, "") == Place(Identity, rt, 3, "");
    var r := Place(Identity, rt, 3, "").table;
    assert r == Table(InsertAt(rt.entries, 0, E(3, 3)), ShiftHeads(rt.heads, 0)[3 := At(0)]);
    assert r.entries == [E(3, 3), E(33, 33), E(2, 2), E(22, 22), E(11, 11)];
  }

  /** Erasing 2 from the table the rehash test ends with: key 2's entry is the head of
      bucket 2 and also named by bucket 22's head, which is left dangling. */
  lemma RehashTestErase(r: Table<nat, string>)
    requires r.entries == [E(3, 3), E(33, 33), E(2, 2), E(22, 22), E(11, 11)]
    requires |r.heads| == 100 && r.heads[22] == At(2) && r.heads[2] == At(2) && WellFormed(Identity, r)
    ensures !HeadsFirst(r) && Erasable(Identity, r, 2)
    ensures var d := Erase(Identity, r, 2);
            && d.heads[22] == Dangling
            && 22 in Contents(d.entries)
            && Lookup(Identity, d, 22) == None
  {
    FirstCachedUnique(r.entries, 22, At(3));
    assert Find(r.entries, 2, 2) == Some(2);
    var d := Erase(Identity, r, 2);
    assert d.entries == [E(3, 3), E(33, 33), E(22, 22), E(11, 11)];
    assert d.entries[2].key == 22;
    ContentsHasKey(d.entries, 22);
  }

  /** The rehash test: keys 11, 22, 2 and 33 under the identity hash, the maximum load
      factor set to the current 4/10, then key 3 inserted. After the rehash bucket 22's
      head names key 2's entry, of bucket 2; erasing 2 afterwards leaves bucket 22's head
      dangling although 22 is still in the list. */
  lemma RehashForeignHeadScenario()
    ensures var t4 := Insert(Identity, Insert(Identity, Insert(Identity, Insert(Identity,
                        EmptyTable(), 1, 1, 11, "").table, 1, 1, 22, "").table, 1, 1, 2, "").table, 1, 1, 33, "").table;
            var r := Insert(Identity, t4, |t4.entries|, |t4.heads|, 3, "").table;
            && LoadReached(t4, |t4.entries|, |t4.heads|)
            && |r.heads| == 100 && |r.entries| == 5
            && r.heads[22] == At(2) && r.entries[2].key == 2 && !HeadsFirst(r)
            && Erasable(Identity, r, 2)
            && Erase(Identity, r, 2).heads[22] == Dangling
            && 22 in Contents(Erase(Identity, r, 2).entries)
            && Lookup(Identity, Erase(Identity, r, 2), 22) == None
  {
    RehashTestTable();
    var t4 := Insert(Identity, Insert(Identity, Insert(Identity, Insert(Identity,
                EmptyTable(), 1, 1, 11, "").table, 1, 1, 22, "").table, 1, 1, 2, "").table, 1, 1, 33, "").table;
    RehashTestInsert(t4);
    var r := Insert(Identity, t4, |t4.entries|, |t4.heads|, 3, "").table;
    RehashTestErase(r);
  }

  /** The first two inserts of the split test: 25, then 5 in front of it in bucket 5. */
  lemma SplitTestFirst()
    ensures var t2 := Insert(Identity, Insert(Identity, EmptyTable(), 1, 1, 25, "").table, 1, 1, 5, "").table;
            && t2.entries == [E(5, 5), E(25, 5)] && |t2.heads| == 10 && t2.heads[5] == At(0)
            && WellFormed(Identity, t2)
  {
    var t0: Table<nat, string> := EmptyTable();
    var t1 := Insert(Identity, t0, 1, 1, 25, "").table;
    assert t1.entries == [E(25, 5)] && t1.heads[5] == At(0);
    var t2 := Insert(Identity, t1, 1, 1, 5, "").table;
    assert Find(t1.entries, 0, 5) == None;
    assert t2.entries == [E(5, 5), E(25, 5)];
  }

  /** The last two inserts of the split test: 15, then 105, each in front of bucket 5. */
  lemma SplitTestSecond(t2: Table<nat, string>)
    requires t2.entries == [E(5, 5), E(25, 5)] && |t2.heads| == 10 && t2.heads[5] == At(0)
    requires WellFormed(Identity, t2)
    ensures var t4 := Insert(Identity, Insert(Identity, t2, 1, 1, 15, "").table, 1, 1, 105, "").table;
            t4.entries == [E(105, 5), E(15, 5), E(5, 5), E(25, 5)] && |t4.heads| == 10
  {
    var t3 := Insert(Identity, t2, 1, 1, 15, "").table;
    assert Find(t2.entries, 0, 15) == None;
    assert t3.entries == [E(15, 5), E(5, 5), E(25, 5)] && t3.heads[5] == At(0);
    var t4 := Insert(Identity, t3, 1, 1, 105, "").table;
    assert Find(t3.entries, 0, 105) == None;
    assert t4.entries == [E(105, 5), E(15, 5), E(5, 5), E(25, 5)];
  }

  /** Keys 25, 5, 15 and 105 under the identity hash all land in bucket 5 of 10, each new
      one in front of the run. */
  lemma SplitTestTable()
    ensures var t4 := Insert(Identity, Insert(Identity, Insert(Identity, Insert(Identity,
                        EmptyTable(), 1, 1, 25, "").table, 1, 1, 5, "").table, 1, 1, 15, "").table, 1, 1, 105, "").table;
            t4.entries == [E(105, 5), E(15, 5), E(5, 5), E(25, 5)] && |t4.heads| == 10
  {
    SplitTestFirst();
    SplitTestSecond(Insert(Identity, Insert(Identity, EmptyTable(), 1, 1, 25, "").table, 1, 1, 5, "").table);
  }

  /** The rehash of that table to 100 buckets leaves the list in its order, so bucket 5's
      entries 105 and 5 are now split by 15. */
  lemma SplitTestRehash(t: Table<nat, string>)
    requires t.entries == [E(105, 5), E(15, 5), E(5, 5), E(25, 5)] && |t.heads| == 10
    ensures var r := Rehash(Identity, t);
            && r.entries == [E(105, 5), E(15, 15), E(5, 5), E(25, 25)]
            && r.heads[7] == Empty && r.heads[5] == At(0)
  {
    var hs0: seq<Head> := seq(100, _ => Empty);
    var hs2 := hs0[5 := At(0)][15 := At(0)];
    SplitTestRehashHead(t.entries, hs0);
    SplitTestRehashTail([E(105, 5), E(15, 15), E(5, 5), E(25, 5)], hs2);
  }

  /** The first two turns of that rehash: 105 heads bucket 5, and 15 takes
      `find_by_cached_key(5)`, which is 105's entry. */
  lemma SplitTestRehashHead(es0: seq<Entry<nat, string>>, hs0: seq<Head>)
    requires es0 == [E(105, 5), E(15, 5), E(5, 5), E(25, 5)]
    requires |hs0| == 100 && hs0[5] == Empty && hs0[15] == Empty
    ensures RehashLoop(Identity, es0, hs0, 0, 100)
            == RehashLoop(Identity, [E(105, 5), E(15, 15), E(5, 5), E(25, 5)], hs0[5 := At(0)][15 := At(0)], 2, 100)
  {
    var m := 100;
    var es1, hs1 := es0[0 := E(105, 5)], hs0[5 := At(0)];
    FirstCachedUnique(es0, 5, At(0));
    assert RehashLoop(Identity, es0, hs0, 0, m) == RehashLoop(Identity, es1, hs1, 1, m);
    var es2, hs2 := es1[1 := E(15, 15)], hs1[15 := At(0)];
    FirstCachedUnique(es1, 5, At(0));
    assert es2 == [E(105, 5), E(15, 15), E(5, 5), E(25, 5)];
  }

  /** The last two turns of that rehash: 5 finds bucket 5 headed, 25 is headed by 105. */
  lemma SplitTestRehashTail(es2: seq<Entry<nat, string>>, hs2: seq<Head>)
    requires es2 == [E(105, 5), E(15, 15), E(5, 5), E(25, 5)]
    requires |hs2| == 100 && hs2[5] == At(0) && hs2[7] == Empty && hs2[25] == Empty
    ensures var r := RehashLoop(Identity, es2, hs2, 2, 100);
            && r.entries == [E(105, 5), E(15, 15), E(5, 5), E(25, 25)]
            && r.heads[7] == Empty && r.heads[5] == At(0)
  {
    var m := 100;
    var es3, hs3 := es2[2 := E(5, 5)], hs2;
    assert RehashLoop(Identity, es2, hs2, 2, m) == RehashLoop(Identity, es3, hs3, 3, m);
    var es4, hs4 := es3[3 := E(25, 25)], hs3[25 := At(0)];
    FirstCachedUnique(es3, 5, At(0));
    assert RehashLoop(Identity, es3, hs3, 3, m) == RehashLoop(Identity, es4, hs4, 4, m);
  }

  /** Inserting 7 at load factor 4/10 rehashes and puts 7 in front. */
  lemma SplitTestInsert(t: Table<nat, string>)
    requires t.entries == [E(105, 5), E(15, 5), E(5, 5), E(25, 5)] && |t.heads| == 10
    requires WellFormed(Identity, t)
    ensures LoadReached(t, |t.entries|, |t.heads|)
    ensures var r := Insert(Identity, t, |t.entries|, |t.heads|, 7, "").table;
            && r.entries == [E(7, 7), E(105, 5), E(15, 15), E(5, 5), E(25, 25)]
            && r.heads[5] == At(1)
  {
    SplitTestRehash(t);
    var rt := Rehash(Identity, t);
    assert Insert(Identity, t, 4, 10, 7, "") == Place(Identity, rt, 7, "");
    var r := Place(Identity, rt, 7, "").table;
    assert r == Table(InsertAt(rt.entries, 0, E(7, 7)), ShiftHeads(rt.heads, 0)[7 := At(0)]);
    assert r.entries == [E(7, 7), E(105, 5), E(15, 15), E(5, 5), E(25, 25)];
  }

  /** Erasing 105, the head of bucket 5, whose successor is of bucket 15: the head is set
      to `end()` although 5 is still in the bucket. */
  lemma SplitTestErase(r: Table<nat, string>)
    requires r.entries == [E(7, 7), E(105, 5), E(15, 15), E(5, 5), E(25, 25)]
    requires |r.heads| == 100 && r.heads[5] == At(1) && WellFormed(Identity, r)
    ensures !Contiguous(r.entries) && Erasable(Identity, r, 105)
    ensures var d := Erase(Identity, r, 105);
            && 5 in Contents(d.entries)
            && Lookup(Identity, d, 5) == None
  {
    assert r.entries[1].cached == r.entries[3].cached != r.entries[2].cached;
    assert Find(r.entries, 1, 105) == Some(1);
    var d := Erase(Identity, r, 105);
    assert d.entries == [E(7, 7), E(15, 15), E(5, 5), E(25, 25)];
    assert d.heads[5] == Empty;
    assert d.entries[2].key == 5;
    ContentsHasKey(d.entries, 5);
  }

  /** A bucket split by the rehash: keys 25, 5, 15 and 105 in bucket 5, the maximum load
      factor set to the current 4/10, key 7 inserted (which rehashes), then 105 erased.
      Rehash keeps the list's order, so bucket 5 of 100 is no longer one run; erase then
      takes 105's successor, of another bucket, as the end of bucket 5 and key 5 is lost. */
  lemma RehashSplitsBucketScenario()
    ensures var t4 := Insert(Identity, Insert(Identity, Insert(Identity, Insert(Identity,
                        EmptyTable(), 1, 1, 25, "").table, 1, 1, 5, "").table, 1, 1, 15, "").table, 1, 1, 105, "").table;
            var r := Insert(Identity, t4, |t4.entries|, |t4.heads|, 7, "").table;
            && LoadReached(t4, |t4.entries|, |t4.heads|)
            && !Contiguous(r.entries)
            && Erasable(Identity, r, 105)
            && 5 in Contents(Erase(Identity, r, 105).entries)
            && Lookup(Identity, Erase(Identity, r, 105), 5) == None
  {
    SplitTestTable();
    var t4 := Insert(Identity, Insert(Identity, Insert(Identity, Insert(Identity,
                EmptyTable(), 1, 1, 25, "").table, 1, 1, 5, "").table, 1, 1, 15, "").table, 1, 1, 105, "").table;
    SplitTestInsert(t4);
    SplitTestErase(Insert(Identity, t4, |t4.entries|, |t4.heads|, 7, "").table);
  }
}
