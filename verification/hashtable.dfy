/** `HashTable<Tkey,Tvalue>`: an open-addressing table with linear probing, tombstones
    (`DELETED` slots) and growth to the next prime above twice the capacity once more
    than half of the slots are live.

    Each member function of the class becomes a pure function from the table state to
    the new state (and, where the C++ member returns one, its `bool`). The key hash
    `std::hash<Tkey>` is the parameter `hash`. */
module HashTable {
  import opened Wrappers
  import opened Primes
  import opened Probing

  /** The class state: the slot vector `table` and the counter `currentSize`. */
  datatype Table<K, V> = Table(slots: seq<Slot<K, V>>, size: int)

  /** The default argument of the constructor. */
  const DefaultCapacity: nat := 101

  /** The counter agrees with the live entries and there is at least one slot:
      what every operation needs in order to run (and, for `insert`, to terminate). */
  ghost predicate Counted<K, V>(t: Table<K, V>)
  {
    |t.slots| > 0 && t.size == |Contents(t.slots)|
  }

  /** Every live entry is reachable from its key's home slot without crossing an
      `EMPTY` slot: each attempt before the one that reaches it lands on a non-empty slot. */
  ghost predicate ProbePathsIntact<K, V>(slots: seq<Slot<K, V>>, hash: K -> nat)
    requires |slots| > 0
  {
    forall j, m :: (0 <= j < |slots| && slots[j].Active? &&
      0 <= m < Attempt(hash, |slots|, slots[j].key, j)) ==>
        !slots[Probe(hash, |slots|, slots[j].key, m)].Empty?
  }

  /** The class invariant: counter agrees, capacity is prime, probe paths are intact. */
  ghost predicate Valid<K, V>(t: Table<K, V>, hash: K -> nat)
  {
    Counted(t) && IsPrime(|t.slots|) && ProbePathsIntact(t.slots, hash)
  }

  /** No slot is a tombstone. */
  ghost predicate NoTombstones<K, V>(slots: seq<Slot<K, V>>)
  {
    forall j :: 0 <= j < |slots| ==> !slots[j].Deleted?
  }

  /** A table of `cap` default-constructed (`EMPTY`) entries and a zero counter. */
  function EmptyTable<K, V>(cap: nat): (t: Table<K, V>)
    ensures |t.slots| == cap && t.size == 0
    ensures forall j :: 0 <= j < cap ==> t.slots[j].Empty?
  {
    Table(seq(cap, _ => Empty), 0)
  }

  /** An empty table has no contents. */
  lemma EmptyTableHasNoContents<K, V>(cap: nat)
    ensures Contents(EmptyTable<K, V>(cap).slots) == multiset{}
  {
    ContentsOfFree(EmptyTable<K, V>(cap).slots);
  }

  /** The constructor: the default capacity 101 is kept as is, any other request is
      rounded up with `nextPrime`. Either way the capacity is the least odd prime at or
      above the request. */
  function New<K, V>(initialSize: nat): (t: Table<K, V>)
    ensures IsPrime(|t.slots|) && |t.slots| % 2 == 1 && |t.slots| >= initialSize
    ensures initialSize == DefaultCapacity ==> |t.slots| == DefaultCapacity
    ensures forall m :: initialSize <= m < |t.slots| && m % 2 == 1 ==> !IsPrime(m)
    ensures t.size == 0 && forall j :: 0 <= j < |t.slots| ==> t.slots[j].Empty?
  {
    DefaultCapacityIsPrime();
    var cap := if initialSize != DefaultCapacity then NextPrime(initialSize) else initialSize;
    EmptyTable(cap)
  }

  /** `clear`: every entry becomes `EMPTY` and the counter drops to zero; the vector keeps its length. */
  function Clear<K, V>(t: Table<K, V>): (r: Table<K, V>)
    ensures |r.slots| == |t.slots| && r.size == 0
    ensures forall j :: 0 <= j < |r.slots| ==> r.slots[j].Empty?
  {
    EmptyTable(|t.slots|)
  }

  /** `size`: the counter, which is the number of live entries. */
  function Size<K, V>(t: Table<K, V>): (n: int)
    requires Counted(t)
    ensures n == |Contents(t.slots)| && 0 <= n <= |t.slots|
  {
    ContentsSize(t.slots);
    t.size
  }

  // ---------------------------------------------------------------------------
  // The probe loops

  /** The do-while loop shared by `search` and `remove`, from attempt `i`: stop with the
      slot at the first attempt that holds `k`; give up after an `EMPTY` slot or when the
      attempts run out. */
  function Locate<K(==), V>(slots: seq<Slot<K, V>>, hash: K -> nat, k: K, i: nat): (r: Option<nat>)
    requires 0 < |slots| && i < |slots|
    ensures r.Some? ==>
      && r.value < |slots| && Holds(slots[r.value], k)
      && i <= Attempt(hash, |slots|, k, r.value)
      && forall m :: i <= m < Attempt(hash, |slots|, k, r.value) ==>
           !Holds(slots[Probe(hash, |slots|, k, m)], k)
    ensures r.None? ==>
      forall m :: i <= m < |slots| && Holds(slots[Probe(hash, |slots|, k, m)], k) ==>
        exists e :: i <= e < m && slots[Probe(hash, |slots|, k, e)].Empty?
    decreases |slots| - i
  {
    var j := Probe(hash, |slots|, k, i);
    if Holds(slots[j], k) then
      ProbeAttemptRoundTrip(hash, |slots|, k, i);
      Some(j)
    else if slots[j].Empty? || i + 1 >= |slots| then
      None
    else
      Locate(slots, hash, k, i + 1)
  }

  /** The do-while loop of `insert` from attempt `i`: the first slot on the probe path
      of `k` that is `EMPTY` or `DELETED`, if one comes up before the attempts run out. */
  function FindFree<K, V>(slots: seq<Slot<K, V>>, hash: K -> nat, k: K, i: nat): (r: Option<nat>)
    requires 0 < |slots| && i < |slots|
    ensures r.Some? ==>
      && r.value < |slots| && !slots[r.value].Active?
      && i <= Attempt(hash, |slots|, k, r.value)
      && forall m :: i <= m < Attempt(hash, |slots|, k, r.value) ==>
           slots[Probe(hash, |slots|, k, m)].Active?
    ensures r.None? ==>
      forall m :: i <= m < |slots| ==> slots[Probe(hash, |slots|, k, m)].Active?
    decreases |slots| - i
  {
    var j := Probe(hash, |slots|, k, i);
    if !slots[j].Active? then
      ProbeAttemptRoundTrip(hash, |slots|, k, i);
      Some(j)
    else if i + 1 < |slots| then
      FindFree(slots, hash, k, i + 1)
    else
      None
  }

  // ---------------------------------------------------------------------------
  // The operations

  /** `search`: the value of the first live entry for `k` met on its probe path. */
  function Search<K(==), V>(t: Table<K, V>, hash: K -> nat, k: K): (r: Option<V>)
    requires |t.slots| > 0
    ensures r.Some? ==> exists j :: 0 <= j < |t.slots| && t.slots[j] == Active(k, r.value)
  {
    match Locate(t.slots, hash, k, 0)
    case Some(j) => Some(t.slots[j].value)
    case None => None
  }

  /** `remove`: the entry `search` would find becomes a tombstone and the counter drops;
      otherwise nothing changes. */
  function Remove<K(==), V>(t: Table<K, V>, hash: K -> nat, k: K): (r: (Table<K, V>, bool))
    requires |t.slots| > 0
    ensures r.1 <==> Search(t, hash, k).Some?
    ensures |r.0.slots| == |t.slots|
    ensures !r.1 ==> r.0 == t
    ensures r.1 ==> r.0.size == t.size - 1
    ensures r.1 ==> exists j :: && 0 <= j < |t.slots| && Holds(t.slots[j], k)
                                && r.0.slots == t.slots[j := Deleted]
                                && forall m :: 0 <= m < Attempt(hash, |t.slots|, k, j) ==>
                                     !Holds(t.slots[Probe(hash, |t.slots|, k, m)], k)
  {
    match Locate(t.slots, hash, k, 0)
    case Some(j) => (Table(t.slots[j := Deleted], t.size - 1), true)
    case None => (t, false)
  }

  /** How far one more entry would push the load past one half (zero when it would not). */
  function LoadExcess<K, V>(t: Table<K, V>): nat
  {
    if 2 * t.size + 2 > |t.slots| then 2 * t.size + 2 - |t.slots| else 0
  }

  /** `insert`: write (k, v) into the first free slot on the probe path of `k`, with no
      check for an existing entry of `k`; then, if more than half of the slots are live
      (`2 * size > capacity`, the float test of `hashtable.h`), rehash. `false` when no free
      slot was met. */
  function Insert<K, V>(t: Table<K, V>, hash: K -> nat, k: K, v: V): (r: (Table<K, V>, bool))
    requires Counted(t)
    ensures Counted(r.0) && |r.0.slots| >= |t.slots| && r.0.size <= t.size + 1
    ensures !r.1 ==> r.0 == t
    decreases LoadExcess(t), 2, 0
  {
    match FindFree(t.slots, hash, k, 0)
    case None => (t, false)
    case Some(j) =>
      var placed := Table(t.slots[j := Active(k, v)], t.size + 1);
      ContentsUpdate(t.slots, j, Active(k, v));
      assert Entry(t.slots[j]) == multiset{};
      assert Contents(placed.slots) == Contents(t.slots) + multiset{(k, v)};
      if 2 * placed.size > |placed.slots| then (Rehash(placed, hash), true)
      else (placed, true)
  }

  /** `rehash`: snapshot the slots, clear, resize to `nextPrime(2 * capacity)` and
      `insert` every live entry of the snapshot in slot order. */
  function Rehash<K, V>(t: Table<K, V>, hash: K -> nat): (r: Table<K, V>)
    requires Counted(t) && 2 * t.size > |t.slots|
    ensures Counted(r) && |r.slots| > 2 * |t.slots| && r.size <= t.size
    decreases 2 * t.size - |t.slots|, 1, 0
  {
    var cap := NextPrime(2 * |t.slots|);
    assert cap > 2 * |t.slots| by { assert cap % 2 == 1; }
    assert t.slots[0..] == t.slots;
    EmptyTableHasNoContents<K, V>(cap);
    Reinsert(t.slots, hash, 0, EmptyTable(cap))
  }

  /** The reinsertion loop of `rehash` from snapshot index `i`, into `acc`. */
  function Reinsert<K, V>(snapshot: seq<Slot<K, V>>, hash: K -> nat, i: nat, acc: Table<K, V>): (r: Table<K, V>)
    requires i <= |snapshot| && Counted(acc) && |acc.slots| > 2 * |snapshot|
    requires 2 * |Contents(snapshot)| > |snapshot|
    requires acc.size + |Contents(snapshot[i..])| <= |Contents(snapshot)|
    ensures Counted(r) && |r.slots| >= |acc.slots|
    ensures r.size <= acc.size + |Contents(snapshot[i..])|
    decreases 2 * |Contents(snapshot)| - |snapshot|, 0, |snapshot| - i
  {
    if i == |snapshot| then acc
    else
      assert snapshot[i..][1..] == snapshot[i + 1..];
      ContentsSize(snapshot);
      if snapshot[i].Active? then
        Reinsert(snapshot, hash, i + 1, Insert(acc, hash, snapshot[i].key, snapshot[i].value).0)
      else
        Reinsert(snapshot, hash, i + 1, acc)
  }
}
