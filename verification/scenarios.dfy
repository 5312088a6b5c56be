/** Small worked cases of the table: the growth steps of the default and of a 5-slot
    table, and the behaviour of keys that share home slot 0, duplicates included. */
module Scenarios {
  import opened Wrappers
  import opened Primes
  import opened Probing
  import opened HashTable
  import opened TableProofs

  /** The 51st entry of a default table pushes the load past one half: the table grows
      from 101 to 211 slots and keeps all 51 entries. */
  lemma DefaultTableGrowsAtFiftyOne<K, V>(t: Table<K, V>, hash: K -> nat, k: K, v: V)
    requires Valid(t, hash) && |t.slots| == DefaultCapacity && t.size == 50
    ensures Insert(t, hash, k, v).1
    ensures |Insert(t, hash, k, v).0.slots| == 211
    ensures Insert(t, hash, k, v).0.size == 51
    ensures Contents(Insert(t, hash, k, v).0.slots) == Contents(t.slots) + multiset{(k, v)}
  {
    InsertKeepsLoadAtMostHalf(t, hash, k, v);
    InsertSpec(t, hash, k, v);
    InsertGrowsExactlyPastHalf(t, hash, k, v);
    NextPrimeOfTwoHundredTwo();
  }

  /** A 5-slot table keeps its size for two entries and grows to 11 slots on the third. */
  lemma FiveSlotsGrowOnTheThird<K, V>(t: Table<K, V>, hash: K -> nat, k: K, v: V)
    requires Valid(t, hash) && |t.slots| == 5 && t.size <= 2
    ensures Insert(t, hash, k, v).1
    ensures |Insert(t, hash, k, v).0.slots| == if t.size < 2 then 5 else 11
  {
    InsertKeepsLoadAtMostHalf(t, hash, k, v);
    InsertGrowsExactlyPastHalf(t, hash, k, v);
    NextPrimeOfTen();
  }

  /** Requests for 0, 1 or 2 slots are rounded up to 3 slots, not rejected. */
  lemma SmallRequestsGetThreeSlots<K, V>(n: nat)
    requires n <= 2
    ensures |New<K, V>(n).slots| == 3
  {
    assert IsPrime(3) by {
      assert IsPrimeTest(3);
    }
  }

  /** A table requested with 5 slots gets exactly 5, all `EMPTY`. */
  lemma NewFiveSlots<K, V>()
    ensures New<K, V>(5) == Table([Empty, Empty, Empty, Empty, Empty], 0)
  {
    assert NextPrime(5) == 5 by {
      assert IsPrimeTest(5);
    }
  }

  /** Keys whose home is slot 0 fill the slots of a new 5-slot table in slot order. */
  lemma CollidingKeysFillInOrder<K, V>(hash: K -> nat, k1: K, v1: V, k2: K, v2: V)
    requires hash(k1) % 5 == 0 && hash(k2) % 5 == 0
    ensures Counted(New<K, V>(5))
    ensures Insert(New<K, V>(5), hash, k1, v1).0 == Table([Active(k1, v1), Empty, Empty, Empty, Empty], 1)
    ensures Counted(Table([Active(k1, v1), Empty, Empty, Empty, Empty], 1))
    ensures Insert(Table([Active(k1, v1), Empty, Empty, Empty, Empty], 1), hash, k2, v2).0 ==
      Table([Active(k1, v1), Active(k2, v2), Empty, Empty, Empty], 2)
  {
    NewIsValid<K, V>(hash, 5);
    NewFiveSlots<K, V>();
    var t1 := Table([Active(k1, v1), Empty, Empty, Empty, Empty], 1);
    FillStep(New<K, V>(5), hash, k1, v1, 0, t1);
    FillStep(t1, hash, k2, v2, 1, Table([Active(k1, v1), Active(k2, v2), Empty, Empty, Empty], 2));
  }

  /** One insert into a 5-slot table with at most one entry: the pair lands in slot `j`,
      the first free slot from 0. */
  lemma FillStep<K, V>(t: Table<K, V>, hash: K -> nat, k: K, v: V, j: nat, r: Table<K, V>)
    requires |t.slots| == 5 && hash(k) % 5 == 0 && j < 5 && t.size == j && j <= 1
    requires forall i :: 0 <= i < j ==> t.slots[i].Active?
    requires forall i :: j <= i < 5 ==> t.slots[i].Empty?
    requires r == Table(t.slots[j := Active(k, v)], j + 1)
    ensures Counted(t)
    ensures Insert(t, hash, k, v) == (r, true)
  {
    if j == 0 {
      ContentsOfFree(t.slots);
    } else {
      ContentsOfFree(t.slots[1..]);
    }
    InsertWithoutGrowth(t, hash, k, v);
    assert Probe(hash, 5, k, 0) == 0 && Probe(hash, 5, k, 1) == 1;
    assert FindFree(t.slots, hash, k, 0) == Some(j);
  }

  /** `insert` never updates in place: a second entry for a present key goes to the first
      free slot of its probe path. In a 5-slot table where `k`'s home is slot 0 and a
      tombstone precedes the older entry, the newer entry lands in front of it and is the
      one `search` finds. */
  lemma DuplicateInsertShadowsOlderEntry<K, V>(hash: K -> nat, k: K, v1: V, v2: V)
    requires hash(k) % 5 == 0
    ensures Counted(Table([Deleted, Active(k, v1), Empty, Empty, Empty], 1))
    ensures var r := Insert(Table([Deleted, Active(k, v1), Empty, Empty, Empty], 1), hash, k, v2);
      && r == (Table([Active(k, v2), Active(k, v1), Empty, Empty, Empty], 2), true)
      && Search(r.0, hash, k) == Some(v2)
  {
    var t := Table([Deleted, Active(k, v1), Empty, Empty, Empty], 1);
    var r := Table([Active(k, v2), Active(k, v1), Empty, Empty, Empty], 2);
    assert Insert(t, hash, k, v2) == (r, true) by {
      assert Counted(t) by {
        assert t.slots[1..][1..] == t.slots[2..];
        ContentsOfFree(t.slots[2..]);
      }
      InsertWithoutGrowth(t, hash, k, v2);
      assert FindFree(t.slots, hash, k, 0) == Some(0);
      assert t.slots[0 := Active(k, v2)] == r.slots;
    }
    assert Locate(r.slots, hash, k, 0) == Some(0);
  }

  /** Removing the key then tombstones only the newer entry, and the older value shows again. */
  lemma RemoveUncoversOlderEntry<K, V>(hash: K -> nat, k: K, v1: V, v2: V)
    requires hash(k) % 5 == 0
    ensures var d := Remove(Table([Active(k, v2), Active(k, v1), Empty, Empty, Empty], 2), hash, k);
      && d == (Table([Deleted, Active(k, v1), Empty, Empty, Empty], 1), true)
      && Search(d.0, hash, k) == Some(v1)
  {
    var r := Table([Active(k, v2), Active(k, v1), Empty, Empty, Empty], 2);
    assert Locate(r.slots, hash, k, 0) == Some(0);
    var d := Remove(r, hash, k).0;
    assert d.slots == [Deleted, Active(k, v1), Empty, Empty, Empty];
    assert Locate(d.slots, hash, k, 1) == Some(1);
  }

  /** Without the tombstone the older entry comes first in probe order and shadows the newer one. */
  lemma DuplicateInsertIsShadowedByOlderEntry<K, V>(hash: K -> nat, k: K, v1: V, v2: V)
    requires hash(k) % 5 == 0
    ensures Counted(Table([Active(k, v1), Empty, Empty, Empty, Empty], 1))
    ensures var r := Insert(Table([Active(k, v1), Empty, Empty, Empty, Empty], 1), hash, k, v2);
      && r == (Table([Active(k, v1), Active(k, v2), Empty, Empty, Empty], 2), true)
      && Search(r.0, hash, k) == Some(v1)
  {
    var t := Table([Active(k, v1), Empty, Empty, Empty, Empty], 1);
    var r := Table([Active(k, v1), Active(k, v2), Empty, Empty, Empty], 2);
    assert Insert(t, hash, k, v2) == (r, true) by {
      assert Counted(t) by {
        ContentsOfFree(t.slots[1..]);
      }
      InsertWithoutGrowth(t, hash, k, v2);
      assert FindFree(t.slots, hash, k, 0) == Some(1);
      assert t.slots[1 := Active(k, v2)] == r.slots;
    }
    assert Locate(r.slots, hash, k, 0) == Some(0);
  }
}
