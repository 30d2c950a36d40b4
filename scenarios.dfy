/**
  The tests of `src/main.cpp` replayed against the class, with what each leaves behind.
*/
module Scenarios {
  import opened Wrappers
  import opened ChainTable
  import opened MapView
  import opened Sparkle
  import opened Findings

  /** The `operator_brackets` test: after inserting 1 and assigning through `mapa[1]`,
      reading `mapa[1]` gives the assigned value. */
  method OperatorBrackets() returns (v: string)
    ensures v == "abc"
  {
    var m := new UnorderedMap<nat, string>(Square);
    var it := m.Insert(1, "1 1");
    assert m.Abs().entries == [Entry(1, "1 1", 1)] && m.Abs().heads[1] == At(0);
    m.Set(1, "abc");
    assert m.Abs().entries == [Entry(1, "abc", 1)];
    v := m.Get(1);
  }

  /** `bucket_count()` on a default-constructed map reports one bucket while the map has ten. */
  method BucketCountOfNewMap() returns (reported: nat, actual: nat)
    ensures reported == 1 && actual == InitialBucketCount && reported != actual
  {
    var m := new UnorderedMap<nat, string>(Identity);
    reported := m.BucketCount();
    actual := m.CorrectedBucketCount();
  }

  /** The `erase` test: after inserting 1, 2, 11 and 22 under the squared hash and erasing
      2, the list still holds 22 but its bucket's head is `end()`. */
  method EraseTest() returns (m: UnorderedMap<nat, string>)
    ensures m.Valid()
    ensures 22 in Contents(m.Abs().entries) && Lookup(Square, m.Abs(), 22) == None
  {
    EraseStrandsScenario();
    m := new UnorderedMap<nat, string>(Square);
    var it := m.Insert(1, "");
    it := m.Insert(2, "");
    it := m.Insert(11, "");
    it := m.Insert(22, "");
    m.Erase(2);
  }

  /** The first three inserts of the `rehash` test: 11, 22 and 2 under the identity hash. */
  method RehashTestFirst() returns (m: UnorderedMap<nat, string>)
    ensures fresh(m) && m.Valid() && m.hash == Identity && m.maxNum == 1 && m.maxDen == 1
    ensures m.Abs().entries == [E(2, 2), E(22, 2), E(11, 1)] && |m.Abs().heads| == 10
    ensures m.Abs().heads[3] == Empty
  {
    Findings.RehashTestFirst();
    m := new UnorderedMap<nat, string>(Identity);
    ghost var t0 := m.Abs();
    assert NoDangling(t0);
    var it := m.Insert(11, "");
    ghost var t1 := m.Abs();
    assert t1 == Insert(Identity, t0, 1, 1, 11, "").table && NoDangling(t1);
    it := m.Insert(22, "");
    ghost var t2 := m.Abs();
    assert t2 == Insert(Identity, t1, 1, 1, 22, "").table && NoDangling(t2);
    it := m.Insert(2, "");
    assert m.Abs() == Insert(Identity, t2, 1, 1, 2, "").table;
  }

  /** The table of the `rehash` test before the maximum load factor is changed. */
  method RehashTestTable() returns (m: UnorderedMap<nat, string>)
    ensures fresh(m) && m.Valid() && m.hash == Identity
    ensures m.Abs().entries == [E(33, 3), E(2, 2), E(22, 2), E(11, 1)] && |m.Abs().heads| == 10
  {
    m := RehashTestFirst();
    Findings.RehashTestFourth(m.Abs());
    var it := m.Insert(33, "");
  }

  /** The last insert of the `rehash` test, at maximum load factor 4/10: 3 is inserted
      and the table rehashed to 100 buckets. */
  method RehashTestLast(m: UnorderedMap<nat, string>)
    requires m.Valid() && m.hash == Identity && m.maxNum == 4 && m.maxDen == 10
    requires m.Abs().entries == [E(33, 3), E(2, 2), E(22, 2), E(11, 1)] && |m.Abs().heads| == 10
    modifies m
    ensures m.Valid() && |m.Abs().heads| == 100
    ensures m.Abs().entries == [E(3, 3), E(33, 33), E(2, 2), E(22, 22), E(11, 11)]
    ensures m.Abs().heads[22] == At(2) && m.Abs().heads[2] == At(2) && !HeadsFirst(m.Abs())
  {
    ghost var t4 := m.Abs();
    Findings.RehashTestInsert(t4);
    assert InsertDefined(Identity, t4, 4, 10, 3);
    var it := m.Insert(3, "");
    assert m.Abs() == Insert(Identity, t4, 4, 10, 3, "").table;
    FirstCachedUnique(m.Abs().entries, 22, At(3));
  }

  /** The `rehash` test: keys 11, 22, 2 and 33 under the identity hash, the maximum load
      factor set to the current load factor, 4/10, then 3 inserted, which rehashes to 100
      buckets; bucket 22's head then names key 2's node, of bucket 2. */
  method RehashTest() returns (m: UnorderedMap<nat, string>)
    ensures m.Valid() && |m.Abs().heads| == 100
    ensures m.Abs().entries == [E(3, 3), E(33, 33), E(2, 2), E(22, 22), E(11, 11)]
    ensures m.Abs().heads[22] == At(2) && m.Abs().heads[2] == At(2) && !HeadsFirst(m.Abs())
  {
    m := RehashTestTable();
    var num, den := m.LoadFactor();
    m.SetMaxLoadFactor(num, den);
    RehashTestLast(m);
  }
}
