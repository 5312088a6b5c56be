# hash-tabela in Dafny

This project models `HashTable<Tkey,Tvalue>` from `hashtable.h` in Dafny. It is a hash table with:

- open addressing;
- linear probing (`hashFunction(x, i) = (hash(x) % capacity + i) % capacity`);
- slots that are `ACTIVE`, `EMPTY` or `DELETED`.

When more than half of the slots are live, the table grows to `nextPrime(2 * capacity)`.

Each member function of the class becomes a pure function from the table state (the slot vector and `currentSize`) to the new state, plus the `bool` the source returns. The free helpers `isPrime` and `nextPrime` are modelled as well.

Modules:

- `Arithmetic`: divisibility facts used by the prime proofs.
- `Primes`: `isPrime` and `nextPrime`, and the proof that `nextPrime` returns the least odd prime at or above its argument. Euclid's argument supplies the bound that makes its search terminate.
- `Probing`: slots, `hashFunction` and its inverse, and `Contents`. `Contents` is the multiset of live (key, value) pairs, which is the abstraction every table property is stated in.
- `Wrappers`: `Option`, the result of `search`.
- `HashTable`: the class state, the constructor, `clear`, `size`, `search`, `insert`, `remove` and `rehash`. `insert` and `rehash` are mutually recursive, as in the source: `rehash` reinserts through the full `insert`, growth check included.
- `TableProofs`: the class invariant `Valid` and what each operation does under it. `Valid` means:
  - the counter agrees with the live entries;
  - the capacity is prime;
  - every live entry is reachable from its home slot without crossing an `EMPTY` slot.
- `Scenarios`: worked cases. These are the growth of the default table and of a 5-slot table, and the behaviour of duplicate keys.

Parameters and translations:

- The key hash `std::hash<Tkey>` is the parameter `hash: K -> nat`.
- The load-factor test `static_cast<float>(currentSize)/table.size() > 0.5` is written `2 * size > capacity`.

## Model

| member | source | states |
|---|---|---|
| `Primes.TrialDivision` | hashtable.h:83-86 | The trial-division loop returns true exactly when an odd `n >= 3` is prime, given that no divisor below the current odd candidate exists. |
| `Primes.IsPrimeTest` | hashtable.h:78-87 | `isPrime(n)` is true exactly when `n` is prime. |
| `Primes.OddPrimeSearch` | hashtable.h:93 | The `while` loop from an odd start returns the least odd prime at or above the start. |
| `Primes.NextPrime` | hashtable.h:91-95 | `nextPrime(n)` is an odd prime, at least `n`, and no odd number in `[n, result)` is prime. |
| `Primes.NextPrimeIsLeastPrime` | hashtable.h:89-95 | For `n >= 3`, no number in `[n, nextPrime(n))` is prime, so the result is the "next prime >= n" the comment promises. |
| `Primes.NextPrimeIsTheLeastOddPrime` | hashtable.h:91-95 | Any odd prime `p >= n` with no odd prime in `[n, p)` is `nextPrime(n)`. |
| `Primes.NextPrimeOfTwo` | hashtable.h:92-93 | `nextPrime(2) == 3`: the even argument is bumped to 3 before any test, so 2 itself is never returned. |
| `Primes.NextPrimeOfFourteen` | hashtable.h:67-73 | The example of the rehash comment: 7 slots grow to `nextPrime(14) == 17`. |
| `Primes.NextPrimeOfTen` | hashtable.h:187 | 5 slots grow to `nextPrime(10) == 11`. |
| `Primes.NextPrimeOfTwoHundredTwo` | hashtable.h:187 | The default 101 slots grow to `nextPrime(202) == 211`. |
| `Primes.DefaultCapacityIsPrime` | hashtable.h:19-20 | The default capacity 101, which the constructor keeps without rounding, is prime. |
| `Probing.Probe` | hashtable.h:123-126 | `hashFunction(x, i)` is a slot index below the capacity. |
| `Probing.Attempt` | hashtable.h:123-126 | For every slot there is an attempt below the capacity at which the probe sequence reaches it. |
| `Probing.ProbeAttemptRoundTrip` | hashtable.h:123-126 | Mapping the slot reached at attempt `i < capacity` back to its attempt gives `i` again: attempts and slots correspond one to one. |
| `Probing.ProbeVisitsEverySlotOnce` | hashtable.h:123-126 | The first `capacity` attempts visit every slot exactly once, so the probe loops' bound `i < table.size()` covers the whole table. |
| `HashTable.EmptyTable` | hashtable.h:53-57 | Default-constructed entries are all `EMPTY`, and the vector has the requested length. |
| `HashTable.New` | hashtable.h:107-112 | The constructor keeps 101 as is and otherwise rounds up to the least odd prime at or above the request (so 0, 1 and 2 give 3 slots). The capacity is always an odd prime, the counter 0 and every slot `EMPTY`. |
| `HashTable.Clear` | hashtable.h:114-120 | `clear` marks every slot `EMPTY`, resets the counter and keeps the capacity. |
| `HashTable.Size` | hashtable.h:128-131 | `size()` is the number of live entries and never exceeds the capacity. |
| `HashTable.Locate` | hashtable.h:137-144 | The search/remove loop from attempt `i` stops at the first slot in probe order holding the key. It fails only if every holder lies behind an `EMPTY` slot on the path. |
| `HashTable.FindFree` | hashtable.h:152-164 | The insert loop finds the first `EMPTY` or `DELETED` slot in probe order, or fails only when every slot on the path is `ACTIVE`. |
| `HashTable.Search` | hashtable.h:133-146 | A successful `search` returns a value stored with the key in some slot. |
| `HashTable.Remove` | hashtable.h:168-182 | `remove` succeeds exactly when `search` would. On success it turns exactly the first slot in probe order that holds the key into `DELETED`, leaves every other slot as it was, and decrements the counter. On failure nothing changes. |
| `HashTable.Insert` | hashtable.h:148-166 | `insert` keeps the counter equal to the number of live entries and never shrinks the table. A failed insert changes nothing. |
| `HashTable.Rehash` | hashtable.h:184-194 | `rehash` leaves a table more than twice as large whose counter agrees with its live entries. |
| `HashTable.Reinsert` | hashtable.h:190-193 | The reinsertion loop keeps the counter consistent and never shrinks the table. |
| `TableProofs.NewIsValid` | hashtable.h:107-112 | A new table satisfies the class invariant and holds nothing. |
| `TableProofs.ClearIsValid` | hashtable.h:114-120 | After `clear` the table is valid and empty, keeps its capacity, and `search` finds nothing. |
| `TableProofs.ClearIdempotent` | hashtable.h:114-120 | Clearing twice is the same as clearing once. |
| `TableProofs.LocateFindsHolder` | hashtable.h:137-144 | With intact probe paths, the search loop finds the key whenever some slot holds it. |
| `TableProofs.SearchFindsFirstHolder` | hashtable.h:133-146 | `search` fails exactly when no slot holds the key. Otherwise it returns the value in the first slot, in the key's probe order, that holds it. |
| `TableProofs.SearchSingleValued` | hashtable.h:133-146 | A key stored with exactly one value is found with that value. |
| `TableProofs.SearchAbsent` | hashtable.h:133-146 | A key with no live entry is not found. |
| `TableProofs.SearchSeesOnlyHolders` | hashtable.h:133-146 | Two valid tables that agree on the slots holding a key give the same `search` result for it. |
| `TableProofs.FindFreeFailsOnlyWhenFull` | hashtable.h:152-165 | The insert loop fails exactly when every slot is `ACTIVE`. |
| `TableProofs.PlaceKeepsPaths` | hashtable.h:154-157 | Writing an entry into the first free slot of its probe path keeps every probe path intact. |
| `TableProofs.InsertWithoutGrowth` | hashtable.h:152-161 | When the new count stays at or below half the capacity, `insert` only writes the pair into the first free slot and counts it. |
| `TableProofs.PlaceSpec` | hashtable.h:152-161 | The write step adds exactly (k, v) to the live entries and keeps the invariant. A rehash follows exactly when the new count exceeds half the capacity. |
| `TableProofs.InsertSpec` | hashtable.h:148-166 | `insert` succeeds exactly when some slot is `EMPTY` or `DELETED`. It then adds exactly (k, v) to the live entries, counts it, and keeps the invariant, with or without a rehash. |
| `TableProofs.InsertGrowsExactlyPastHalf` | hashtable.h:159-160 | A successful insert changes the capacity exactly when the new count exceeds half of it. The new capacity is then `nextPrime(2 * capacity)` with no tombstones. Otherwise only the first free slot on the key's path changes. |
| `TableProofs.InsertKeepsLoadAtMostHalf` | hashtable.h:28-32 | From a table at most half full, `insert` always succeeds and leaves the table at most half full. |
| `TableProofs.InsertedKeyIsFound` | hashtable.h:148-166 | After inserting an absent key, `search` returns the inserted value. |
| `TableProofs.InsertKeepsOtherKeys` | hashtable.h:148-166 | Inserting one key does not change what `search` returns for another key that has a single value. |
| `TableProofs.InsertKeepsDuplicates` | hashtable.h:148-166 | Inserting a present key adds a second live entry instead of replacing the first. |
| `TableProofs.ReinsertStep` | hashtable.h:190-192 | Reinserting one live snapshot entry writes it without triggering a nested rehash and keeps paths intact and tombstones absent. |
| `TableProofs.ReinsertSpec` | hashtable.h:190-193 | The reinsertion loop keeps the new capacity, adds exactly the snapshot's live entries, keeps paths intact and creates no tombstone. |
| `TableProofs.RehashSpec` | hashtable.h:184-194 | `rehash` moves to capacity `nextPrime(2 * capacity)`, which is above twice the old one. It keeps exactly the live entries and the counter, drops every tombstone, and re-establishes the invariant. |
| `TableProofs.DeleteKeepsPaths` | hashtable.h:174-176 | Turning a slot into a tombstone keeps every probe path intact. |
| `TableProofs.TombstoneSpec` | hashtable.h:174-176 | Tombstoning a live slot and decrementing the counter takes exactly its pair out of the live entries and keeps the invariant. |
| `TableProofs.DeleteSpec` | hashtable.h:172-178 | A successful `remove` tombstones the first holder in probe order and removes exactly that pair from the live entries. |
| `TableProofs.RemoveSpec` | hashtable.h:168-182 | `remove` succeeds exactly when some slot holds the key. It then takes the first holder's pair out of the live entries and keeps the invariant. |
| `TableProofs.RemoveKeepsOtherSearches` | hashtable.h:168-182 | Removing a key does not change what `search` returns for any other key: tombstones do not break probe paths. |
| `TableProofs.TombstoneKeepsOtherSearches` | hashtable.h:174-176 | A tombstone in a slot that does not hold `k2` leaves `search` for `k2` unchanged. |
| `TableProofs.RemoveOnlyEntry` | hashtable.h:168-182 | Removing the only live entry of a key succeeds, and afterwards `search` fails for it. |
| `Scenarios.SmallRequestsGetThreeSlots` | hashtable.h:109 | A requested capacity of 0, 1 or 2 gives a table of 3 slots. |
| `Scenarios.DefaultTableGrowsAtFiftyOne` | hashtable.h:159-160 | The 51st entry of a 101-slot table triggers growth to 211 slots, and all 51 entries are kept. |
| `Scenarios.FiveSlotsGrowOnTheThird` | hashtable.h:159-160 | A 5-slot table keeps its size for the first two entries and grows to 11 slots on the third. |
| `Scenarios.CollidingKeysFillInOrder` | hashtable.h:152-158 | Two keys that share home slot 0, inserted into a new 5-slot table, fill slots 0 and 1 in order. |
| `Scenarios.DuplicateInsertShadowsOlderEntry` | hashtable.h:152-161 | A tombstone in front of an older entry takes the duplicate, so `search` then returns the newer value. |
| `Scenarios.RemoveUncoversOlderEntry` | hashtable.h:172-177 | Removing a duplicated key tombstones only the first copy, so the older value shows again. |
| `Scenarios.DuplicateInsertIsShadowedByOlderEntry` | hashtable.h:152-161 | Without a tombstone, the duplicate goes behind the older entry, and `search` keeps returning the older value. |

## Left out

- `print` (hashtable.h:97-105) only writes to standard output; it is not modelled.
- `std::hash<Tkey>` is the parameter `hash`. No property depends on a particular hash.
- The float test at hashtable.h:159 is modelled as the exact `2 * size > capacity`. The two tests can differ once the capacity is 2^24 or more: for `currentSize = 2^23 + 2` and capacity `2^24 + 3` the float quotient rounds to exactly 0.5, so `hashtable.h` does not rehash where the model does. Float rounding is not modelled.
- Machine integers are unbounded here. The possible overflows are not modelled:
  - `i * i` in `isPrime`;
  - `n += 2` in `nextPrime`;
  - `table.size() * 2` in `rehash`;
  - the `int`/`size_t` mixes in the probe loops.
- `HashTable.New` takes a `nat`. A negative `initialSize` is not modelled: for odd negative `n` the source's `isPrime(n)` is true, and the following `resize` fails.
- The stale (key, value) payload that `EMPTY` and `DELETED` entries keep is not modelled, because the source never reads it.
- On failure, `search` leaves its `result` argument unspecified. Here it returns `None`.
- `HashTable.Insert`: its own contract states only counter consistency, growth and "failure changes nothing". What it stores and that it keeps the invariant is stated by `TableProofs.InsertSpec` and `TableProofs.InsertGrowsExactlyPastHalf`.
- `HashTable.Search`: its own contract states only that a found value is stored with the key. The full characterisation (fails iff no holder, otherwise the first holder in probe order) is `TableProofs.SearchFindsFirstHolder`, under the class invariant.
- `HashTable.Rehash`: its own contract states only growth and counter consistency. The exact capacity and the preserved contents are `TableProofs.RehashSpec`.
- `HashTable.Reinsert`: its own contract states only counter consistency and no shrinking. The full loop behaviour is `TableProofs.ReinsertSpec`.
- `HashTable.Insert`, `HashTable.Rehash` and `HashTable.Reinsert` require the counter to equal the number of live entries. That holds for every table the class builds, and it is what bounds the mutual recursion between `insert` and `rehash`.
- Where a general statement of the class's behaviour differs from the code, the model follows the code:
  - A degenerate requested capacity is neither rejected nor clamped: `nextPrime` rounds 0 and 1 up to 3.
  - `nextPrime(2)` is 3, not 2; so `New(2)` has 3 slots.
  - Of two entries for one key, `search` usually finds the earlier-inserted one. When a tombstone precedes the older entry, it finds the newer one instead (`Scenarios.DuplicateInsertShadowsOlderEntry`).
