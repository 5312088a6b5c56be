/** Properties of the table operations under the class invariant `Valid`: what
    `search` finds, what `insert`, `remove`, `clear` and `rehash` do to the multiset of
    live entries, and that each of them keeps the invariant. */
module TableProofs {
  import opened Wrappers
  import opened Primes
  import opened Probing
  import opened HashTable

  // ---------------------------------------------------------------------------
  // Construction and clear

  /** A new table satisfies the invariant and holds nothing. */
  lemma NewIsValid<K, V>(hash: K -> nat, initialSize: nat)
    ensures Valid(New<K, V>(initialSize), hash)
    ensures Contents(New<K, V>(initialSize).slots) == multiset{}
  {
    EmptyTableHasNoContents<K, V>(|New<K, V>(initialSize).slots|);
  }

  /** `clear` leaves a valid, empty table of the same capacity, in which nothing is found. */
  lemma ClearIsValid<K, V>(t: Table<K, V>, hash: K -> nat, k: K)
    requires Valid(t, hash)
    ensures Valid(Clear(t), hash) && |Clear(t).slots| == |t.slots|
    ensures Contents(Clear(t).slots) == multiset{}
    ensures Search(Clear(t), hash, k) == None
  {
    EmptyTableHasNoContents<K, V>(|t.slots|);
  }

  /** Clearing twice is clearing once. */
  lemma ClearIdempotent<K, V>(t: Table<K, V>)
    ensures Clear(Clear(t)) == Clear(t)
  {
  }

  // ---------------------------------------------------------------------------
  // Search

  /** Slot `j` holds the first live entry for `k` in `k`'s probe order. */
  ghost predicate FirstHolder<K, V>(slots: seq<Slot<K, V>>, hash: K -> nat, k: K, j: nat)
    requires |slots| > 0
  {
    && j < |slots| && Holds(slots[j], k)
    && forall m :: 0 <= m < Attempt(hash, |slots|, k, j) ==>
         !Holds(slots[Probe(hash, |slots|, k, m)], k)
  }

  /** There is at most one first holder. */
  lemma FirstHolderUnique<K, V>(slots: seq<Slot<K, V>>, hash: K -> nat, k: K, j1: nat, j2: nat)
    requires |slots| > 0
    requires FirstHolder(slots, hash, k, j1) && FirstHolder(slots, hash, k, j2)
    ensures j1 == j2
  {
    HolderNotBeforeFirst(slots, hash, k, j1, j2);
    HolderNotBeforeFirst(slots, hash, k, j2, j1);
    assert Probe(hash, |slots|, k, Attempt(hash, |slots|, k, j1)) == j1;
  }

  /** No slot holding `k` comes before the first holder in `k`'s probe order. */
  lemma HolderNotBeforeFirst<K, V>(slots: seq<Slot<K, V>>, hash: K -> nat, k: K, f: nat, j: nat)
    requires |slots| > 0 && FirstHolder(slots, hash, k, f)
    requires j < |slots| && Holds(slots[j], k)
    ensures Attempt(hash, |slots|, k, f) <= Attempt(hash, |slots|, k, j)
  {
    assert Probe(hash, |slots|, k, Attempt(hash, |slots|, k, j)) == j;
  }

  /** Whenever some slot holds `k`, one of them comes first in `k`'s probe order. */
  lemma FirstHolderExists<K, V>(slots: seq<Slot<K, V>>, hash: K -> nat, k: K, j: nat)
    requires |slots| > 0 && j < |slots| && Holds(slots[j], k)
    ensures exists f: nat :: FirstHolder(slots, hash, k, f)
  {
    var cap := |slots|;
    // The least attempt that lands on a holder.
    var a := Attempt(hash, cap, k, j);
    var b := 0;
    while b < a && !Holds(slots[Probe(hash, cap, k, b)], k)
      invariant b <= a
      invariant forall m :: 0 <= m < b ==> !Holds(slots[Probe(hash, cap, k, m)], k)
      decreases a - b
    {
      b := b + 1;
    }
    var g := Probe(hash, cap, k, b);
    ProbeAttemptRoundTrip(hash, cap, k, b);
    assert FirstHolder(slots, hash, k, g);
  }

  /** With probe paths intact, the probe loop of `search` cannot stop at an `EMPTY` slot
      before reaching a live entry for `k`: it finds one whenever one exists. */
  lemma LocateFindsHolder<K, V>(slots: seq<Slot<K, V>>, hash: K -> nat, k: K, j: nat)
    requires |slots| > 0 && ProbePathsIntact(slots, hash)
    requires j < |slots| && Holds(slots[j], k)
    ensures Locate(slots, hash, k, 0).Some?
  {
    var cap := |slots|;
    var a := Attempt(hash, cap, k, j);
    assert forall e :: 0 <= e < a ==> !slots[Probe(hash, cap, slots[j].key, e)].Empty?;
    assert Holds(slots[Probe(hash, cap, k, a)], k);
  }

  /** Under the invariant, `search` finds `k` exactly when some slot holds it, and then
      returns the value of the first holder in probe order. */
  lemma SearchFindsFirstHolder<K, V>(t: Table<K, V>, hash: K -> nat, k: K)
    requires Valid(t, hash)
    ensures Search(t, hash, k).None? <==> forall j :: 0 <= j < |t.slots| ==> !Holds(t.slots[j], k)
    ensures forall j: nat :: FirstHolder(t.slots, hash, k, j) ==> Search(t, hash, k) == Some(t.slots[j].value)
  {
    if exists j :: 0 <= j < |t.slots| && Holds(t.slots[j], k) {
      var j :| 0 <= j < |t.slots| && Holds(t.slots[j], k);
      LocateFindsHolder(t.slots, hash, k, j);
      var f := Locate(t.slots, hash, k, 0).value;
      assert FirstHolder(t.slots, hash, k, f);
      forall g: nat | FirstHolder(t.slots, hash, k, g)
        ensures Search(t, hash, k) == Some(t.slots[g].value)
      {
        FirstHolderUnique(t.slots, hash, k, f, g);
      }
    }
  }

  /** A key all of whose live entries carry the value `v` is found with `v`. */
  lemma SearchSingleValued<K, V>(t: Table<K, V>, hash: K -> nat, k: K, v: V)
    requires Valid(t, hash)
    requires (k, v) in Contents(t.slots)
    requires forall w :: (k, w) in Contents(t.slots) ==> w == v
    ensures Search(t, hash, k) == Some(v)
  {
    ContentsMembership(t.slots, k, v);
    var j :| 0 <= j < |t.slots| && t.slots[j] == Active(k, v);
    FirstHolderExists(t.slots, hash, k, j);
    var f: nat :| FirstHolder(t.slots, hash, k, f);
    SearchFindsFirstHolder(t, hash, k);
    ContentsMembership(t.slots, k, t.slots[f].value);
  }

  /** A key with no live entry is not found. */
  lemma SearchAbsent<K, V>(t: Table<K, V>, hash: K -> nat, k: K)
    requires Valid(t, hash)
    requires forall w :: (k, w) !in Contents(t.slots)
    ensures Search(t, hash, k) == None
  {
    SearchFindsFirstHolder(t, hash, k);
    forall j | 0 <= j < |t.slots|
      ensures !Holds(t.slots[j], k)
    {
      if Holds(t.slots[j], k) {
        ContentsMembership(t.slots, k, t.slots[j].value);
      }
    }
  }

  // ---------------------------------------------------------------------------
  // Insert and rehash

  /** Writing a live entry into a free slot whose probe path has no `EMPTY` slot before
      it keeps every probe path intact. */
  lemma PlaceKeepsPaths<K, V>(slots: seq<Slot<K, V>>, hash: K -> nat, j: nat, k: K, v: V)
    requires |slots| > 0 && ProbePathsIntact(slots, hash)
    requires j < |slots| && !slots[j].Active?
    requires forall m :: 0 <= m < Attempt(hash, |slots|, k, j) ==>
      !slots[Probe(hash, |slots|, k, m)].Empty?
    ensures ProbePathsIntact(slots[j := Active(k, v)], hash)
  {
  }

  /** `insert` fails only when the whole probe path, hence every slot, is live. */
  lemma FindFreeFailsOnlyWhenFull<K, V>(slots: seq<Slot<K, V>>, hash: K -> nat, k: K)
    requires |slots| > 0
    ensures FindFree(slots, hash, k, 0).None? <==> forall j :: 0 <= j < |slots| ==> slots[j].Active?
  {
    var cap := |slots|;
    if FindFree(slots, hash, k, 0).None? {
      forall j | 0 <= j < cap
        ensures slots[j].Active?
      {
        assert Probe(hash, cap, k, Attempt(hash, cap, k, j)) == j;
      }
    }
  }

  /** An `insert` that does not push the load past one half only writes the new entry. */
  lemma InsertWithoutGrowth<K, V>(t: Table<K, V>, hash: K -> nat, k: K, v: V)
    requires Counted(t) && 2 * (t.size + 1) <= |t.slots|
    ensures FindFree(t.slots, hash, k, 0).Some?
    ensures Insert(t, hash, k, v) ==
      (Table(t.slots[FindFree(t.slots, hash, k, 0).value := Active(k, v)], t.size + 1), true)
  {
    ContentsSize(t.slots);
    FindFreeFailsOnlyWhenFull(t.slots, hash, k);
  }

  /** One step of the reinsertion loop on a live snapshot entry: `insert` does not grow
      the table, writes the entry into a free slot, and keeps paths and contents in step. */
  lemma ReinsertStep<K, V>(snapshot: seq<Slot<K, V>>, hash: K -> nat, i: nat, acc: Table<K, V>)
    returns (placed: Table<K, V>)
    requires i < |snapshot| && snapshot[i].Active? && Counted(acc) && |acc.slots| > 2 * |snapshot|
    requires 2 * |Contents(snapshot)| > |snapshot|
    requires acc.size + |Contents(snapshot[i..])| <= |Contents(snapshot)|
    requires ProbePathsIntact(acc.slots, hash) && NoTombstones(acc.slots)
    ensures Counted(placed) && |placed.slots| == |acc.slots| && placed.size == acc.size + 1
    ensures Contents(placed.slots) == Contents(acc.slots) + Entry(snapshot[i])
    ensures placed.size + |Contents(snapshot[i + 1..])| <= |Contents(snapshot)|
    ensures Reinsert(snapshot, hash, i, acc) == Reinsert(snapshot, hash, i + 1, placed)
    ensures ProbePathsIntact(placed.slots, hash) && NoTombstones(placed.slots)
  {
    assert snapshot[i..][1..] == snapshot[i + 1..];
    assert Contents(snapshot[i..]) == Entry(snapshot[i]) + Contents(snapshot[i + 1..]);
    ContentsSize(snapshot);
    var k, v := snapshot[i].key, snapshot[i].value;
    InsertWithoutGrowth(acc, hash, k, v);
    var j := FindFree(acc.slots, hash, k, 0).value;
    placed := Table(acc.slots[j := Active(k, v)], acc.size + 1);
    ContentsUpdate(acc.slots, j, Active(k, v));
    PlaceKeepsPaths(acc.slots, hash, j, k, v);
  }

  /** The reinsertion loop of `rehash` never grows the table again: it keeps the capacity
      of `acc`, adds exactly the live entries of the rest of the snapshot, keeps probe
      paths intact and creates no tombstone. */
  lemma {:induction false} ReinsertSpec<K, V>(snapshot: seq<Slot<K, V>>, hash: K -> nat, i: nat, acc: Table<K, V>)
    requires i <= |snapshot| && Counted(acc) && |acc.slots| > 2 * |snapshot|
    requires 2 * |Contents(snapshot)| > |snapshot|
    requires acc.size + |Contents(snapshot[i..])| <= |Contents(snapshot)|
    requires ProbePathsIntact(acc.slots, hash) && NoTombstones(acc.slots)
    ensures var r := Reinsert(snapshot, hash, i, acc);
      && |r.slots| == |acc.slots|
      && Contents(r.slots) == Contents(acc.slots) + Contents(snapshot[i..])
      && r.size == acc.size + |Contents(snapshot[i..])|
      && ProbePathsIntact(r.slots, hash) && NoTombstones(r.slots)
    decreases |snapshot| - i
  {
    if i < |snapshot| {
      assert snapshot[i..][1..] == snapshot[i + 1..];
      assert Contents(snapshot[i..]) == Entry(snapshot[i]) + Contents(snapshot[i + 1..]);
      if snapshot[i].Active? {
        var placed := ReinsertStep(snapshot, hash, i, acc);
        ReinsertSpec(snapshot, hash, i + 1, placed);
      } else {
        assert Reinsert(snapshot, hash, i, acc) == Reinsert(snapshot, hash, i + 1, acc);
        ReinsertSpec(snapshot, hash, i + 1, acc);
      }
    } else {
      assert snapshot[i..] == [];
    }
  }

  /** `rehash` moves to capacity `nextPrime(2 * capacity)`, keeps exactly the live
      entries, drops every tombstone and re-establishes the invariant. */
  lemma RehashSpec<K, V>(t: Table<K, V>, hash: K -> nat)
    requires Counted(t) && 2 * t.size > |t.slots|
    ensures var r := Rehash(t, hash);
      && Valid(r, hash) && NoTombstones(r.slots)
      && |r.slots| == NextPrime(2 * |t.slots|) && |r.slots| > 2 * |t.slots|
      && Contents(r.slots) == Contents(t.slots) && r.size == t.size
  {
    var cap := NextPrime(2 * |t.slots|);
    assert cap > 2 * |t.slots| by { assert cap % 2 == 1; }
    assert t.slots[0..] == t.slots;
    EmptyTableHasNoContents<K, V>(cap);
    ReinsertSpec(t.slots, hash, 0, EmptyTable(cap));
  }

  /** The write step of `insert`: the first free slot on the probe path of `k` takes
      (k, v), the counter follows, probe paths stay intact; a rehash follows exactly when
      the new count exceeds half the capacity. */
  lemma PlaceSpec<K, V>(t: Table<K, V>, hash: K -> nat, k: K, v: V) returns (j: nat, placed: Table<K, V>)
    requires Valid(t, hash) && FindFree(t.slots, hash, k, 0).Some?
    ensures j == FindFree(t.slots, hash, k, 0).value && j < |t.slots| && !t.slots[j].Active?
    ensures placed == Table(t.slots[j := Active(k, v)], t.size + 1)
    ensures Counted(placed) && IsPrime(|placed.slots|) && ProbePathsIntact(placed.slots, hash)
    ensures Contents(placed.slots) == Contents(t.slots) + multiset{(k, v)}
    ensures Insert(t, hash, k, v).1
    ensures 2 * placed.size > |t.slots| ==> Insert(t, hash, k, v).0 == Rehash(placed, hash)
    ensures 2 * placed.size <= |t.slots| ==> Insert(t, hash, k, v).0 == placed
  {
    j := FindFree(t.slots, hash, k, 0).value;
    placed := Table(t.slots[j := Active(k, v)], t.size + 1);
    assert Contents(placed.slots) == Contents(t.slots) + multiset{(k, v)} by {
      ContentsUpdate(t.slots, j, Active(k, v));
      assert Entry(t.slots[j]) == multiset{};
    }
    assert ProbePathsIntact(placed.slots, hash) by {
      PlaceKeepsPaths(t.slots, hash, j, k, v);
    }
    InsertUnfolds(t, hash, k, v);
  }

  lemma InsertUnfolds<K, V>(t: Table<K, V>, hash: K -> nat, k: K, v: V)
    requires Counted(t) && FindFree(t.slots, hash, k, 0).Some?
    ensures var placed := Table(t.slots[FindFree(t.slots, hash, k, 0).value := Active(k, v)], t.size + 1);
      && Counted(placed) && Insert(t, hash, k, v).1
      && (2 * placed.size > |t.slots| ==> Insert(t, hash, k, v).0 == Rehash(placed, hash))
      && (2 * placed.size <= |t.slots| ==> Insert(t, hash, k, v).0 == placed)
  {
    var j := FindFree(t.slots, hash, k, 0).value;
    var s' := t.slots[j := Active(k, v)];
    ContentsUpdate(t.slots, j, Active(k, v));
    assert Entry(t.slots[j]) == multiset{};
    assert Contents(s') == Contents(t.slots) + multiset{(k, v)};
    assert |Contents(s')| == t.size + 1;
  }

  /** `insert` succeeds exactly when some slot is `EMPTY` or `DELETED`; it then adds
      exactly (k, v) to the live entries, counts it, and keeps the invariant, whether
      or not a rehash fires. */
  lemma InsertSpec<K, V>(t: Table<K, V>, hash: K -> nat, k: K, v: V)
    requires Valid(t, hash)
    ensures Insert(t, hash, k, v).1 <==> exists j :: 0 <= j < |t.slots| && !t.slots[j].Active?
    ensures var r := Insert(t, hash, k, v).0;
      Insert(t, hash, k, v).1 ==>
        && Valid(r, hash)
        && Contents(r.slots) == Contents(t.slots) + multiset{(k, v)}
        && r.size == t.size + 1
  {
    FindFreeFailsOnlyWhenFull(t.slots, hash, k);
    if FindFree(t.slots, hash, k, 0).Some? {
      var j, placed := PlaceSpec(t, hash, k, v);
      if 2 * placed.size > |t.slots| {
        RehashSpec(placed, hash);
      }
    }
  }

  /** When it succeeds, `insert` grows the table exactly when the new count exceeds half
      the capacity; it then moves to `nextPrime(2 * capacity)` with no tombstones left.
      Otherwise it only writes (k, v) into the first free slot on `k`'s probe path. */
  lemma InsertGrowsExactlyPastHalf<K, V>(t: Table<K, V>, hash: K -> nat, k: K, v: V)
    requires Valid(t, hash) && Insert(t, hash, k, v).1
    ensures var r := Insert(t, hash, k, v).0;
      && (|r.slots| != |t.slots| <==> 2 * (t.size + 1) > |t.slots|)
      && (|r.slots| != |t.slots| ==> |r.slots| == NextPrime(2 * |t.slots|) && NoTombstones(r.slots))
      && (|r.slots| == |t.slots| ==>
            exists j :: && 0 <= j < |t.slots| && !t.slots[j].Active?
                        && r.slots == t.slots[j := Active(k, v)]
                        && forall m :: 0 <= m < Attempt(hash, |t.slots|, k, j) ==>
                             t.slots[Probe(hash, |t.slots|, k, m)].Active?)
  {
    var j, placed := PlaceSpec(t, hash, k, v);
    if 2 * placed.size > |t.slots| {
      RehashSpec(placed, hash);
    }
  }

  /** The load-factor policy: from a table at most half full, `insert` succeeds and
      leaves a table at most half full. */
  lemma InsertKeepsLoadAtMostHalf<K, V>(t: Table<K, V>, hash: K -> nat, k: K, v: V)
    requires Valid(t, hash) && 2 * t.size <= |t.slots|
    ensures Insert(t, hash, k, v).1
    ensures 2 * Insert(t, hash, k, v).0.size <= |Insert(t, hash, k, v).0.slots|
  {
    ContentsSize(t.slots);
    var j :| 0 <= j < |t.slots| && !t.slots[j].Active?;
    InsertSpec(t, hash, k, v);
    InsertGrowsExactlyPastHalf(t, hash, k, v);
  }

  /** After inserting a key that had no live entry, `search` finds it with the new value. */
  lemma InsertedKeyIsFound<K, V>(t: Table<K, V>, hash: K -> nat, k: K, v: V)
    requires Valid(t, hash) && Insert(t, hash, k, v).1
    requires forall w :: (k, w) !in Contents(t.slots)
    ensures Search(Insert(t, hash, k, v).0, hash, k) == Some(v)
  {
    InsertSpec(t, hash, k, v);
    SearchSingleValued(Insert(t, hash, k, v).0, hash, k, v);
  }

  /** Inserting another key does not disturb a key whose live entries all carry one value. */
  lemma InsertKeepsOtherKeys<K, V>(t: Table<K, V>, hash: K -> nat, k: K, v: V, k2: K, v2: V)
    requires Valid(t, hash) && Insert(t, hash, k, v).1 && k2 != k
    requires (k2, v2) in Contents(t.slots)
    requires forall w :: (k2, w) in Contents(t.slots) ==> w == v2
    ensures Search(Insert(t, hash, k, v).0, hash, k2) == Some(v2)
  {
    InsertSpec(t, hash, k, v);
    SearchSingleValued(Insert(t, hash, k, v).0, hash, k2, v2);
  }

  /** No update in place: inserting a key that is already live keeps the old entry too. */
  lemma InsertKeepsDuplicates<K, V>(t: Table<K, V>, hash: K -> nat, k: K, v: V, w: V)
    requires Valid(t, hash) && Insert(t, hash, k, v).1 && (k, w) in Contents(t.slots)
    ensures (k, w) in Contents(Insert(t, hash, k, v).0.slots)
    ensures (k, v) in Contents(Insert(t, hash, k, v).0.slots)
  {
    InsertSpec(t, hash, k, v);
  }

  // ---------------------------------------------------------------------------
  // Remove

  /** Turning a live entry into a tombstone keeps every probe path intact. */
  lemma DeleteKeepsPaths<K, V>(slots: seq<Slot<K, V>>, hash: K -> nat, j: nat)
    requires |slots| > 0 && ProbePathsIntact(slots, hash) && j < |slots|
    ensures ProbePathsIntact(slots[j := Deleted], hash)
  {
  }

  /** The tombstone step of `remove`: the slot `search` finds becomes `DELETED`, which
      takes exactly its entry out of the live entries and keeps the invariant. */
  lemma DeleteSpec<K, V>(t: Table<K, V>, hash: K -> nat, k: K) returns (j: nat)
    requires Valid(t, hash) && Locate(t.slots, hash, k, 0).Some?
    ensures j == Locate(t.slots, hash, k, 0).value && FirstHolder(t.slots, hash, k, j)
    ensures Remove(t, hash, k) == (Table(t.slots[j := Deleted], t.size - 1), true)
    ensures Valid(Remove(t, hash, k).0, hash)
    ensures Contents(Remove(t, hash, k).0.slots) == Contents(t.slots) - multiset{(k, t.slots[j].value)}
  {
    j := Locate(t.slots, hash, k, 0).value;
    TombstoneSpec(t, hash, j);
  }

  /** Turning a live slot into a tombstone and decrementing the counter takes exactly its
      entry out of the live entries and keeps the invariant. */
  lemma TombstoneSpec<K, V>(t: Table<K, V>, hash: K -> nat, j: nat)
    requires Valid(t, hash) && j < |t.slots| && t.slots[j].Active?
    ensures Contents(t.slots[j := Deleted]) == Contents(t.slots) - multiset{(t.slots[j].key, t.slots[j].value)}
    ensures Valid(Table(t.slots[j := Deleted], t.size - 1), hash)
  {
    var s' := t.slots[j := Deleted];
    var pair := (t.slots[j].key, t.slots[j].value);
    ContentsUpdate(t.slots, j, Deleted);
    assert Contents(s') + multiset{pair} == Contents(t.slots);
    assert |Contents(s')| + 1 == t.size;
    DeleteKeepsPaths(t.slots, hash, j);
  }

  /** `remove` succeeds exactly when some slot holds `k`; it then turns the first holder in
      probe order into a tombstone, which takes exactly that entry out of the live
      entries, and keeps the invariant. A failed `remove` changes nothing. */
  lemma RemoveSpec<K, V>(t: Table<K, V>, hash: K -> nat, k: K)
    requires Valid(t, hash)
    ensures Remove(t, hash, k).1 <==> exists j :: 0 <= j < |t.slots| && Holds(t.slots[j], k)
    ensures Valid(Remove(t, hash, k).0, hash)
    ensures Remove(t, hash, k).1 ==>
      exists j: nat :: && FirstHolder(t.slots, hash, k, j)
                       && Remove(t, hash, k).0.slots == t.slots[j := Deleted]
                       && Contents(Remove(t, hash, k).0.slots) ==
                            Contents(t.slots) - multiset{(k, t.slots[j].value)}
  {
    SearchFindsFirstHolder(t, hash, k);
    if Locate(t.slots, hash, k, 0).Some? {
      var j := DeleteSpec(t, hash, k);
    } else {
      assert Remove(t, hash, k) == (t, false);
    }
  }

  /** What `search` finds for `k` depends only on the slots that hold `k`. */
  lemma SearchSeesOnlyHolders<K, V>(t1: Table<K, V>, t2: Table<K, V>, hash: K -> nat, k: K)
    requires Valid(t1, hash) && Valid(t2, hash) && |t1.slots| == |t2.slots|
    requires forall i :: 0 <= i < |t1.slots| && (Holds(t1.slots[i], k) || Holds(t2.slots[i], k)) ==>
      t1.slots[i] == t2.slots[i]
    ensures Search(t1, hash, k) == Search(t2, hash, k)
  {
    SearchFindsFirstHolder(t1, hash, k);
    SearchFindsFirstHolder(t2, hash, k);
    if exists g :: 0 <= g < |t1.slots| && Holds(t1.slots[g], k) {
      var g :| 0 <= g < |t1.slots| && Holds(t1.slots[g], k);
      FirstHolderExists(t1.slots, hash, k, g);
      var f: nat :| FirstHolder(t1.slots, hash, k, f);
      FirstHolderTransfer(t1.slots, t2.slots, hash, k, f);
      assert Search(t1, hash, k) == Some(t1.slots[f].value);
      assert Search(t2, hash, k) == Some(t2.slots[f].value);
    } else {
      assert forall j :: 0 <= j < |t2.slots| ==> !Holds(t2.slots[j], k);
    }
  }

  /** The first holder of `k` is the same in two slot sequences that agree on the slots holding `k`. */
  lemma FirstHolderTransfer<K, V>(s1: seq<Slot<K, V>>, s2: seq<Slot<K, V>>, hash: K -> nat, k: K, f: nat)
    requires |s1| > 0 && |s1| == |s2| && FirstHolder(s1, hash, k, f)
    requires forall i :: 0 <= i < |s1| && (Holds(s1[i], k) || Holds(s2[i], k)) ==> s1[i] == s2[i]
    ensures FirstHolder(s2, hash, k, f)
  {
    forall m | 0 <= m < Attempt(hash, |s2|, k, f)
      ensures !Holds(s2[Probe(hash, |s2|, k, m)], k)
    {
      var p := Probe(hash, |s1|, k, m);
      assert !Holds(s1[p], k);
    }
  }

  /** Removing `k` does not change what `search` finds for any other key: tombstones
      are transparent to probing. */
  lemma RemoveKeepsOtherSearches<K, V>(t: Table<K, V>, hash: K -> nat, k: K, k2: K)
    requires Valid(t, hash) && k2 != k
    ensures Search(Remove(t, hash, k).0, hash, k2) == Search(t, hash, k2)
  {
    if Locate(t.slots, hash, k, 0).Some? {
      var j := DeleteSpec(t, hash, k);
      TombstoneKeepsOtherSearches(t, hash, j, k2);
    } else {
      assert Remove(t, hash, k) == (t, false);
    }
  }

  /** A tombstone in a slot that does not hold `k2` leaves `search` for `k2` unchanged. */
  lemma TombstoneKeepsOtherSearches<K, V>(t: Table<K, V>, hash: K -> nat, j: nat, k2: K)
    requires Valid(t, hash) && j < |t.slots| && t.slots[j].Active? && t.slots[j].key != k2
    ensures Search(Table(t.slots[j := Deleted], t.size - 1), hash, k2) == Search(t, hash, k2)
  {
    var r := Table(t.slots[j := Deleted], t.size - 1);
    TombstoneSpec(t, hash, j);
    assert !Holds(t.slots[j], k2) && !Holds(r.slots[j], k2);
    SearchSeesOnlyHolders(t, r, hash, k2);
  }

  /** Removing the only live entry of `k` makes `search` fail for `k`. */
  lemma RemoveOnlyEntry<K, V>(t: Table<K, V>, hash: K -> nat, k: K, v: V)
    requires Valid(t, hash) && Contents(t.slots)[(k, v)] == 1
    requires forall w :: w != v ==> (k, w) !in Contents(t.slots)
    ensures Remove(t, hash, k).1
    ensures Search(Remove(t, hash, k).0, hash, k) == None
  {
    ContentsMembership(t.slots, k, v);
    SearchFindsFirstHolder(t, hash, k);
    var j := DeleteSpec(t, hash, k);
    ContentsMembership(t.slots, k, t.slots[j].value);
    SearchAbsent(Remove(t, hash, k).0, hash, k);
  }
}
