# Two hash tables: open addressing and separate chaining

This project models the two fixed-capacity hash tables of
`hash_table_comparison.py` and the hash function they share. Both map integer
keys to string values.

- `hash_function(key, size)` is `key % size`. The model is `Hashing.Hash`.
  Dafny's `%` with a positive divisor is never negative, and neither is
  Python's, so negative keys are modelled directly.
- `HashTableOpenAddressing` keeps `size` slots. Each slot is empty (`None`) or
  holds one `(key, value)` pair. `insert` probes linearly and cyclically from the
  key's hash to the first empty slot and stores the pair there. `search` walks
  the same probe sequence. It returns the value of the first slot whose key
  matches, or `None` at the first empty slot.
- `HashTableSeparateChaining` keeps `size` chains. `insert` appends the pair to
  the chain at the key's hash. `search` scans that chain in order and returns the
  first match.

Neither table removes duplicates or updates a value in place. Every insertion
adds a new entry, and a search returns the value of the earliest insertion of
the key.

Layout:

- `wrappers.dfy`: `Option`, the search result (Python's `None` or a value).
- `hashing.dfy`: `Entry`, `Hash`, `FirstMatch` and `FirstMatchAppend`.
  `FirstMatch` returns the value of the earliest pair with a given key. It is
  both the search order of a chain and the reference meaning of a sequence of
  insertions. `FirstMatchAppend` says how appending one pair changes it.
- `open_addressing.dfy` and `separate_chaining.dfy`: each describes its table
  first as a value (`seq<Slot>`, `seq<Chain>`), with the functions that give
  insertion and search their meaning and the lemmas about them. Then a class
  holds the same data in an `array`, updated in place. Its `Insert` and `Search`
  methods use the source's loops and are proved against those functions.
- `scenarios.dfy`: client methods. They insert keys 1, 5 and 9 into a
  four-slot table, where all three hash to slot 1, and insert key 5 twice. They
  use only the class contracts to show where each pair ends up and what each
  search returns.

The open-addressing loops stop only when they reach an empty slot or, for
`search`, a matching key. `Insert` therefore requires an empty slot. `Search`
requires an empty slot or a stored copy of the key. `OpenAddressing.FirstStopFound`
proves that this precondition is exactly the condition under which the search
loop ends. Both loops prove termination with a ghost step counter. The counter
is bounded by the step of the first empty slot (`FirstEmpty`) or of the first
stopping slot (`FirstStop`).

The class invariant of each table is an invariant of the data structure:

- Open addressing (`ProbingInvariant`): every stored pair can be reached by
  probing from its key's hash without passing an empty slot.
- Separate chaining (`ChainsHashed`): every pair is in the chain its key hashes
  to.

Insertion preserves each invariant. Under it, search finds a key exactly when
the key is stored.

## Model

| member | source | states |
|---|---|---|
| Hashing.Hash | hash_table_comparison.py:19-20 | For every integer key, negative keys included, and every positive size, the slot index is in `[0, size)`. A key already in that range is its own slot. |
| Hashing.FirstMatch | hash_table_comparison.py:73-76 | The result is `None` exactly when no pair has the key. Otherwise it is the value of a pair with that key, and no earlier pair has the key. |
| Hashing.FirstMatchAppend | hash_table_comparison.py:63-76 | Appending a pair changes the first match for a key only when no earlier pair had that key. In that case the new pair's value becomes the match if its key is that key. |
| OpenAddressing.ProbeIndex | hash_table_comparison.py:33-34 | The slot reached after `t` probing steps from slot `h` is a valid slot index. |
| OpenAddressing.Offset | hash_table_comparison.py:33-34 | Every slot is reached from any start in fewer than `size` probing steps, and the step count returned reaches exactly that slot. |
| OpenAddressing.ProbeStep | hash_table_comparison.py:34 | One step `(hash_value + 1) % size` moves exactly one place along the cyclic probe sequence. |
| OpenAddressing.ProbeIndexInjective | hash_table_comparison.py:33-34 | The first `size` probing steps from any start visit pairwise different slots, and `Offset` recovers the step count from the slot. |
| OpenAddressing.EmptySlots | hash_table_comparison.py:27 | `[None] * size` has exactly `size` slots, all empty. |
| OpenAddressing.Occupied | hash_table_comparison.py:23-36 | The occupied count is at most the number of slots. When it is smaller, some slot is empty. It is zero exactly when every slot is empty. |
| OpenAddressing.OccupiedFill | hash_table_comparison.py:36 | Storing a pair in an empty slot raises the occupied count by exactly one. |
| OpenAddressing.HashTableOpenAddressing.constructor | hash_table_comparison.py:24-27 | The new table has exactly `size` slots, all empty, and satisfies the probing invariant. |
| OpenAddressing.FirstEmpty | hash_table_comparison.py:31-34 | The result is the first probing step, counted from `t`, that lands on an empty slot. Every earlier step lands on an occupied slot. The result is `size` when no step within one lap lands on an empty slot. |
| OpenAddressing.FirstEmptyFound | hash_table_comparison.py:33-34 | If any slot is empty, the probe sequence from any start reaches an empty slot within one lap, so the insert loop ends. |
| OpenAddressing.InsertSlot | hash_table_comparison.py:31-34 | Insert fills the first empty slot on the cyclic probe sequence from `key % size`. Every slot the probe passes before it is occupied. |
| OpenAddressing.Inserted | hash_table_comparison.py:29-36 | Insert stores `(key, value)` in that slot and leaves every other slot unchanged. No occupied slot changes or becomes empty. The occupied count grows by exactly one. The stored keys are the old keys plus `key`. |
| OpenAddressing.HashTableOpenAddressing.Insert | hash_table_comparison.py:29-36 | Given an empty slot, the probing loop ends. The array becomes `Inserted(old contents, key, value)`, and the probing invariant still holds. |
| OpenAddressing.InsertedKeepsInvariant | hash_table_comparison.py:31-36 | Insertion preserves the linear-probing invariant: every occupied slot is reachable from its key's hash through occupied slots only. |
| OpenAddressing.FirstStop | hash_table_comparison.py:42-45 | The result is the first probing step, counted from `t`, that lands on an empty slot or on the key. Every earlier step lands on an occupied slot with another key. The result is `size` when there is no such step within one lap. |
| OpenAddressing.FirstStopFound | hash_table_comparison.py:42-45 | The search loop ends within one lap if and only if the table has an empty slot or stores the key. |
| OpenAddressing.Lookup | hash_table_comparison.py:38-46 | It is defined where the source's search returns: the table has an empty slot or stores the key. A found value comes from the first slot on the probe sequence from `key % size` that holds the key, and every slot before it is occupied with another key. A found value is stored in the table. `None` means the probe reached an empty slot before any slot with the key. |
| OpenAddressing.HashTableOpenAddressing.Search | hash_table_comparison.py:38-46 | If the table has an empty slot or stores the key, the search loop ends and returns `Lookup(contents, key)`. It does not modify the table. |
| OpenAddressing.LookupFindsStoredKeys | hash_table_comparison.py:38-46 | Under the probing invariant, whenever the search returns, it returns a value if and only if some slot holds the key. |
| OpenAddressing.AbsentNotFound | hash_table_comparison.py:42-46 | With an empty slot present, a search for a key that no slot holds returns `None`. |
| OpenAddressing.InsertedThenFound | hash_table_comparison.py:29-46 | If search did not find a key, searching for it right after inserting it returns the inserted value. |
| OpenAddressing.InsertedKeepsFound | hash_table_comparison.py:29-46 | Inserting any pair never changes what a successful search returns, so the first insertion of a key wins. |
| OpenAddressing.LookupAfterInsert | hash_table_comparison.py:29-46 | Suppose search finds `k` exactly when `k` is stored, and the search for `k` after an insertion returns because an empty slot remains or `k` is stored. That search then returns the earlier result for `k` if there was one. Otherwise it returns the inserted value when the keys agree, and `None` when they do not. |
| OpenAddressing.InsertAll | hash_table_comparison.py:29-36 | A run of insertions fills exactly one slot per insertion. The keys stored afterwards are the earlier keys plus the inserted keys. |
| OpenAddressing.FirstInsertionWins | hash_table_comparison.py:29-46 | Start from an empty table and insert pairs, duplicates allowed. Consider a search that returns: either fewer than `size` pairs were inserted, or exactly `size` pairs were inserted and the key is among them. That search returns the value of the earliest insertion of the key, or `None` if the key was never inserted. |
| SeparateChaining.EmptyChains | hash_table_comparison.py:61 | A fresh table has `n` chains, each empty. |
| SeparateChaining.TotalEntries | hash_table_comparison.py:57-67 | The entry count is zero exactly when every chain is empty. |
| SeparateChaining.TotalEntriesAppend | hash_table_comparison.py:67 | Appending to one chain raises the total entry count by exactly one. |
| SeparateChaining.HashTableSeparateChaining.constructor | hash_table_comparison.py:58-61 | The new table has exactly `size` chains, all empty. |
| SeparateChaining.Appended | hash_table_comparison.py:63-67 | Insert appends `(key, value)` to the end of chain `key % size`. Every other chain is unchanged, and the total entry count grows by exactly one. The stored keys are the old keys plus `key`. |
| SeparateChaining.AppendedKeepsHashed | hash_table_comparison.py:63-67 | After an append, every pair is still in the chain its key hashes to. |
| SeparateChaining.HashTableSeparateChaining.Insert | hash_table_comparison.py:63-67 | Insert never fails. The array becomes `Appended(old contents, key, value)`, and every pair stays in its hash chain. |
| SeparateChaining.Lookup | hash_table_comparison.py:69-76 | The result is `None` exactly when no pair in chain `key % size` has the key. Otherwise it is the value of a pair in that chain with the key, and no earlier pair in that chain has the key. |
| SeparateChaining.HashTableSeparateChaining.Search | hash_table_comparison.py:69-76 | The scan returns the first match in chain `key % size`, which is `None` exactly when no pair in that chain has the key. It does not modify the table. |
| SeparateChaining.LookupFindsStoredKeys | hash_table_comparison.py:69-76 | When every pair is in its hash chain, search returns a value if and only if some chain stores the key. |
| SeparateChaining.LookupAfterAppend | hash_table_comparison.py:63-76 | After an append, a search for a key returns its earlier first match if it had one. Otherwise it returns the appended value when the keys agree, and `None` when they do not. |
| SeparateChaining.InsertAll | hash_table_comparison.py:63-67 | A run of insertions adds exactly one entry per insertion. The keys stored afterwards are the earlier keys plus the inserted keys. |
| SeparateChaining.FirstInsertionWins | hash_table_comparison.py:63-76 | Start from an empty table and insert any number of pairs, duplicates allowed. A search then returns the value of the earliest insertion of the key, or `None` if the key was never inserted. |

## Left out

- `get_memory_usage` (both classes, hash_table_comparison.py:48-54 and 78-85) is not modelled. It adds up `sys.getsizeof` results, which are sizes that the Python runtime reports about its own objects.
- `measure_performance_and_memory` (hash_table_comparison.py:88-106) is not modelled. It measures wall-clock time with `time.time` and draws keys from the global generator `random.randint`. The only behaviour it has is that it calls `insert` and then `search`, and both of those are modelled.
- `plot_results`, the experiment settings and the console output (hash_table_comparison.py:109-163) are not modelled. They are presentation and I/O.
- OpenAddressing.HashTableOpenAddressing.Insert: requires an empty slot. On a full table the source's probing loop never ends. The model states that this precondition is needed but does not represent the endless loop itself. An implementation could detect a full lap and report an error instead. The code does not, and the model follows the code.
- OpenAddressing.HashTableOpenAddressing.Search: requires an empty slot or a stored copy of the key. On a full table without the key the source's loop never ends, and the model excludes that case instead of representing it. OpenAddressing.Lookup, OpenAddressing.LookupFindsStoredKeys, OpenAddressing.AbsentNotFound, OpenAddressing.LookupAfterInsert and OpenAddressing.FirstInsertionWins carry the same domain. They say nothing about a search that never returns.
- OpenAddressing.HashTableOpenAddressing.constructor: requires `size > 0`, and so does SeparateChaining.HashTableSeparateChaining.constructor. With size 0 the source builds an empty table, and the first `insert` or `search` raises `ZeroDivisionError`. A negative size builds an empty list, and the first access raises `IndexError`. The model does not represent these exceptions.
- Each Python chain is a separate list object that `append` changes in place. The model stores each chain as a sequence value in the array and replaces it on append. No chain is shared between slots in the source, so no aliasing is lost.
- Values are Python strings and are modelled as `string`. Keys are unbounded Python integers and are modelled as `int`.
