/** Slots of the table, the linear-probing index `hashFunction`, and the multiset
    abstraction of the table's live entries. */
module Probing {
  import opened Arithmetic

  /** A `HashEntry`: its status tag, with the (key, value) pair only when `ACTIVE`.
      The stale payload left in `EMPTY` and `DELETED` entries is never read, so it is not kept. */
  datatype Slot<K, V> = Empty | Deleted | Active(key: K, value: V)

  /** The slot holds a live entry for key `k`. */
  predicate Holds<K(==), V>(s: Slot<K, V>, k: K)
  {
    s.Active? && s.key == k
  }

  /** `hashFunction(x, i)`: attempt `i` of the probe sequence of key `k` in a table
      of `cap` slots, `(hash(k) % cap + i) % cap`. */
  function Probe<K>(hash: K -> nat, cap: nat, k: K, i: nat): (j: nat)
    requires cap > 0
    ensures j < cap
  {
    (hash(k) % cap + i) % cap
  }

  /** The attempt at which the probe sequence of `k` reaches slot `j`: the inverse of `Probe`. */
  function Attempt<K>(hash: K -> nat, cap: nat, k: K, j: nat): (i: nat)
    requires cap > 0 && j < cap
    ensures i < cap && Probe(hash, cap, k, i) == j
  {
    var h := hash(k) % cap;
    ReduceOnce(j + cap - h, cap);
    ReduceOnce(h + (j + cap - h) % cap, cap);
    (j + cap - h) % cap
  }

  lemma ReduceOnce(x: nat, c: nat)
    requires 0 < c && x < 2 * c
    ensures x % c == if x < c then x else x - c
  {
    if x < c {
      QuotientUnique(x / c, x % c, 0, x, c);
    } else {
      QuotientUnique(x / c, x % c, 1, x - c, c);
    }
  }

  /** Attempts below `cap` and slots are in one-to-one correspondence. */
  lemma ProbeAttemptRoundTrip<K>(hash: K -> nat, cap: nat, k: K, i: nat)
    requires cap > 0 && i < cap
    ensures Attempt(hash, cap, k, Probe(hash, cap, k, i)) == i
  {
    var h := hash(k) % cap;
    var j := Probe(hash, cap, k, i);
    ReduceOnce(h + i, cap);
    ReduceOnce(j + cap - h, cap);
  }

  /** The first `cap` attempts visit every slot exactly once. */
  lemma ProbeVisitsEverySlotOnce<K>(hash: K -> nat, cap: nat, k: K)
    requires cap > 0
    ensures forall j :: 0 <= j < cap ==>
      Attempt(hash, cap, k, j) < cap && Probe(hash, cap, k, Attempt(hash, cap, k, j)) == j
    ensures forall i1, i2 :: (0 <= i1 < cap && 0 <= i2 < cap &&
      Probe(hash, cap, k, i1) == Probe(hash, cap, k, i2)) ==> i1 == i2
  {
    forall i1, i2 | 0 <= i1 < cap && 0 <= i2 < cap &&
      Probe(hash, cap, k, i1) == Probe(hash, cap, k, i2)
      ensures i1 == i2
    {
      ProbeAttemptRoundTrip(hash, cap, k, i1);
      ProbeAttemptRoundTrip(hash, cap, k, i2);
    }
  }

  // ---------------------------------------------------------------------------
  // The abstraction: the multiset of live (key, value) pairs.

  /** The live pairs of a slot sequence, with multiplicity (duplicate keys are possible). */
  ghost function Contents<K, V>(s: seq<Slot<K, V>>): multiset<(K, V)>
  {
    if |s| == 0 then multiset{}
    else Entry(s[0]) + Contents(s[1..])
  }

  ghost function Entry<K, V>(s: Slot<K, V>): multiset<(K, V)>
  {
    if s.Active? then multiset{(s.key, s.value)} else multiset{}
  }

  /** Contents has one element per active slot, so never more than there are slots,
      and fewer exactly when some slot is free. */
  lemma {:induction false} ContentsSize<K, V>(s: seq<Slot<K, V>>)
    ensures |Contents(s)| <= |s|
    ensures |Contents(s)| < |s| <==> exists j :: 0 <= j < |s| && !s[j].Active?
  {
    if |s| > 0 {
      ContentsSize(s[1..]);
      if exists j :: 0 <= j < |s[1..]| && !s[1..][j].Active? {
        var j :| 0 <= j < |s[1..]| && !s[1..][j].Active?;
        assert !s[j + 1].Active?;
      }
      if exists j :: 0 <= j < |s| && !s[j].Active? {
        var j :| 0 <= j < |s| && !s[j].Active?;
        if j > 0 {
          assert !s[1..][j - 1].Active?;
        }
      }
    }
  }

  /** A pair is live exactly when some slot holds it. */
  lemma {:induction false} ContentsMembership<K, V>(s: seq<Slot<K, V>>, k: K, v: V)
    ensures (k, v) in Contents(s) <==> exists j :: 0 <= j < |s| && s[j] == Active(k, v)
  {
    if |s| > 0 {
      ContentsMembership(s[1..], k, v);
      if exists j :: 0 <= j < |s[1..]| && s[1..][j] == Active(k, v) {
        var j :| 0 <= j < |s[1..]| && s[1..][j] == Active(k, v);
        assert s[j + 1] == Active(k, v);
      }
      if exists j :: 0 <= j < |s| && s[j] == Active(k, v) {
        var j :| 0 <= j < |s| && s[j] == Active(k, v);
        if j > 0 {
          assert s[1..][j - 1] == Active(k, v);
        }
      }
    }
  }

  /** Overwriting one slot replaces its entry in the contents. */
  lemma {:induction false} ContentsUpdate<K, V>(s: seq<Slot<K, V>>, j: nat, x: Slot<K, V>)
    requires j < |s|
    ensures Contents(s[j := x]) + Entry(s[j]) == Contents(s) + Entry(x)
  {
    if j > 0 {
      var t := s[j := x];
      ContentsUpdate(s[1..], j - 1, x);
      assert t[1..] == s[1..][j - 1 := x];
      assert s[1..][j - 1] == s[j];
      calc {
        Contents(t) + Entry(s[j]);
        Entry(s[0]) + (Contents(s[1..][j - 1 := x]) + Entry(s[1..][j - 1]));
        Entry(s[0]) + (Contents(s[1..]) + Entry(x));
      }
    } else {
      assert s[j := x][1..] == s[1..];
    }
  }

  /** A sequence of free slots has no contents. */
  lemma {:induction false} ContentsOfFree<K, V>(s: seq<Slot<K, V>>)
    requires forall j :: 0 <= j < |s| ==> !s[j].Active?
    ensures Contents(s) == multiset{}
  {
    if |s| > 0 {
      ContentsOfFree(s[1..]);
    }
  }
}
