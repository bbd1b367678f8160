# A string-keyed open-addressing hash table, modelled in Dafny

The table maps text keys to text values. Its buckets form a fixed array. Each bucket is
either empty, a tombstone left by a deletion, or a live item (a key and a value). The table
resolves collisions by double hashing. For attempt `i`, the bucket probed for a key is
`(h1 + i * (h2 + 1)) mod size`, where `h1` and `h2` are two polynomial string hashes with
multipliers 151 and 163.

- **Insert** grows the table when the load `count * 100 / size` exceeds 70.
- **Delete** shrinks it when the load is below 10.
- **A resize** re-inserts the live items into a fresh array of `next_prime(base)` buckets.
  This is the only thing that clears tombstones. A base below 53 is refused.

The modules follow the source:

- `Prime` (prime.dfy): a stand-in for `next_prime`, whose source is not part of this model.
- `Probing` (probing.dfy): `ht_hash` and `ht_get_hash` as functions.
- `Slots` (slots.dfy): the item, the slot and the slot array as values. `Item` is the
  key/value record (hash_table.h:4-7). `Slot` is one entry of the bucket array
  (hash_table.h:13): `Empty` is a null pointer, `Deleted` is the shared tombstone item
  (hash_table.c:17), and `Live` is an item pointer. It gives the
  three probe walks of the source as functions: `Locate` is the walk of insert and search,
  `Tombstoned` and `ReachesEmpty` are the walk of delete. It also holds the lemmas that
  say what the walks do to the table's content.
- `HashTable` (table.dfy): the table record as a class with `size`, `count` and
  `items: array<Slot>`. Its methods update the array and the fields in place, as the
  C functions do.
- `Demo` (demo.dfy): the demonstration program's insert and search, extended with a
  delete, and a second scenario on a concrete table.

**Content.** The table's content is `Find(items[..], key)`: the value of the live item
holding the key. `Find` is defined without reference to probing.

**Invariant.** The object invariant `Valid()` says two things:
- `count` is the number of live slots.
- `Placed`: every live item sits exactly where the walk for its key lands. This implies
  that no key is live twice, and that every bucket the walk visits before the item is
  non-empty (`LocateMatchPath`).

**Contracts.** Every operation keeps `Valid()` and states its effect on the content:
- Insert sets one key.
- Delete removes one key.
- Resize changes nothing in the content.

The headline properties follow: search returns the inserted value
(`Slots.InsertThenSearch`), and returns nothing after a delete (`Slots.DeleteThenSearch`).

**Unbounded loops.** The source's probe loops have no attempt bound. Each walk here stops
after `size` attempts, which loses nothing:
- The probe sequence repeats with period `size` (`Probing.ProbePeriodic`). Every attempt
  therefore visits the bucket of an attempt below `size` (`Probing.ProbeMod`).
- If the walk of insert or search is `Exhausted` after `size` attempts, then every later
  attempt also lands on a tombstone or on another key (`Slots.ExhaustedNeverStops`).
- If the delete walk meets no empty bucket in `size` attempts, it never meets one
  (`Slots.NoEmptyNeverStops`).

Such a walk is an explicit outcome: `Exhausted`, or `ok == false` from a method. That is
exactly the case where the C function never returns. It can happen in two ways:
- Insert never reuses a tombstone, so tombstones pile up until a resize.
  `Slots.AllTombstonesExhaust` shows that every walk stalls once all buckets hold one.
- The step `h2 + 1` equals `size` when `h2 = size - 1`.
  `Demo.StalledInsert` exhibits this on a new table: after `"aM"` is inserted,
  inserting `"+"` revisits bucket 49 forever.

**What the code does, where its comments or declarations suggest otherwise.**
- The comment at hash_table.c:162-163 says insert puts the new item into a deleted slot.
  The code never writes into one: it passes over tombstones, and only an empty bucket or
  a live copy of the key stops it (hash_table.c:161-175).
- The step `h2 + 1` is 0 modulo the bucket count when `h2 = size - 1` (hash_table.c:130).
- hash_table.h:10 declares `size_index`, but nothing reads or writes it. Capacity is
  governed by `size` alone (hash_table.c:140-148).

## Model

| member | source | states |
|---|---|---|
| Prime.NextPrime | hash_table.c:47 | the bucket count for a requested base: at least the base, at least 2, and no prime lies between the base and it; it is prime unless no prime lies within twice the base |
| Probing.HashAfter | hash_table.c:116-119 | the hash accumulated over a prefix of the key, reduced modulo m at every step, stays in [0, m) |
| Probing.Hash | hash_table.c:112-121 | the hash of a key with a given multiplier is a bucket index in [0, m) |
| Probing.Probe | hash_table.c:123-131 | the bucket of attempt i for a key, (h1 + i*(h2+1)) mod num_buckets, is in [0, num_buckets) and depends only on key, bucket count and attempt |
| Probing.ProbePeriodic | hash_table.c:130 | attempts i and i + num_buckets visit the same bucket |
| Probing.ProbeMod | hash_table.c:123-131 | attempt i visits the same bucket as attempt i mod num_buckets |
| Slots.ReachesEmpty | hash_table.c:208-218 | whether the delete loop ends; it is the ok of Remove and Delete |
| Slots.ReachesEmptyMeans | hash_table.c:208-218 | the delete loop ends exactly when some attempt below the bucket count lands on an empty bucket |
| Slots.Placed | hash_table.c:157-195 | the probing invariant: every live item sits where the walk for its key lands |
| Slots.Empties | hash_table.c:50 | the zero-filled bucket array of a new table: n buckets, all empty |
| Slots.RehashFrom | hash_table.c:86-93 | the rehash as a value: the old table's live items, in bucket order, stored one by one into the new buckets; None exactly at the first store whose walk is exhausted; the result has as many buckets as the start |
| Slots.RehashFromKeeps | hash_table.c:86-93 | a rehash that completes keeps the probing invariant, leaves no tombstone, and ends with the old table's key/value pairs and live count |
| Slots.Locate | hash_table.c:158-174 | the walk of insert and search: a Match is a live slot holding the key, a Vacant landing is an empty slot, passing over tombstones and other keys |
| Slots.Lookup | hash_table.c:180-195 | what search returns: a value it returns belongs to a live item with that key |
| Slots.Find | hash_table.c:179-195 | the table's content: a value found belongs to a live item with the key, and None exactly when no live slot holds the key |
| Slots.CountLive | hash_table.h:12 | the number of live slots, at most the number of buckets, zero exactly when no slot is live |
| Slots.Stored | hash_table.c:157-176 | the slots after the probe-and-store step keep the bucket count |
| Slots.StoredKeepsTombstones | hash_table.c:161-175 | insert neither writes into a tombstone nor creates one |
| Slots.Tombstoned | hash_table.c:205-219 | the slots after the delete walk keep the bucket count |
| Slots.TombstonedKeepsEmpties | hash_table.c:208-219 | no bucket becomes empty, and no empty bucket is filled, by the delete walk |
| Slots.TombstonedStep | hash_table.c:209-217 | one attempt of the delete walk: a live slot holding the key becomes a tombstone and the live count drops by one; the rest of the walk terminates exactly when the whole walk does |
| Slots.PlacedUnique | hash_table.c:161-169 | under the probing invariant no key is live in two buckets |
| Slots.PrefixExtend | hash_table.c:88-93 | re-inserting the buckets in order: each live item adds one live slot and its key is not among the earlier buckets |
| Slots.LookupIsFind | hash_table.c:180-195 | under the probing invariant, search returns exactly the value of the live item holding the key, and None when there is none |
| Slots.LocateMatchPath | hash_table.c:184-193 | a live item found by the walk is reached at some attempt below the bucket count, and every bucket visited earlier is non-empty |
| Slots.StoredPreserves | hash_table.c:157-176 | storing keeps the probing invariant; the key then holds the new value unless the walk was exhausted; other keys keep their values; the live count grows by one exactly when the key was absent |
| Slots.InsertThenSearch | hash_table.c:151-195 | after an insert whose walk was not exhausted, search returns the new value for that key and the old answer for any other key |
| Slots.TombstonedErases | hash_table.c:205-219 | the delete walk tombstones exactly the key's one live slot, keeps the probing invariant, removes the key, keeps other keys, and lowers the live count by one exactly when the key was present |
| Slots.DeleteThenSearch | hash_table.c:180-220 | after a delete, search returns None for the key and the old answer for any other key |
| Slots.AllTombstonesExhaust | hash_table.c:161-174 | when every bucket is a tombstone, the walk of insert and search and the walk of delete never stop |
| Slots.ExhaustedNeverStops | hash_table.c:161-174 | when the walk of insert and search is exhausted after the bucket count's worth of attempts, every later attempt also lands on a tombstone or on another key, so the unbounded loop never ends |
| Slots.NoEmptyNeverStops | hash_table.c:208-219 | when the delete walk meets no empty bucket in the bucket count's worth of attempts, no later attempt does either, before or after the walk's own tombstoning |
| Slots.StuckWalkExhausts | hash_table.c:128-130 | a walk whose remaining attempts all hit one bucket holding another key never stops |
| HashTable.Table.Valid | hash_table.h:9-14 | the table record's invariant: the array has size buckets, count is the number of live buckets, and the probing invariant holds |
| HashTable.Table.Sized | hash_table.c:39-56 | a new table has next_prime(base) buckets, all empty, and count 0; the invariant holds |
| HashTable.Table.New | hash_table.c:59-61 | a new table has next_prime(53) buckets, all empty, and count 0; with the stand-in for next_prime (prime.h is not modelled here), that is 53 buckets (Demo.InitialSizeIs53) |
| HashTable.Table.Search | hash_table.c:180-195 | returns the value of the live item holding the key, or None; it changes nothing |
| HashTable.Table.Put | hash_table.c:157-176 | the probe-and-store step: the slots become Stored(old slots); ok exactly when the walk stopped; the key holds the value, other keys are unchanged, and count grows by one exactly when the key was absent |
| HashTable.Table.Insert | hash_table.c:151-177 | sets the key's value and keeps every other key; count grows exactly when the key was new; with load at most 70 the array and size are untouched, and above it the table grows to next_prime(2*size); ok is then true exactly when the rehash completes (RehashFrom is Some) and the store's walk in the grown buckets is not exhausted, and the buckets are those grown buckets with the item stored; when the rehash stalls the array, its contents and the size are untouched |
| HashTable.Table.Remove | hash_table.c:205-219 | the delete walk: the slots become Tombstoned(old slots); ok exactly when the walk meets an empty bucket; the key is gone, other keys are unchanged, and count drops exactly when the key was present |
| HashTable.Table.Delete | hash_table.c:199-220 | removes the key and keeps every other key; count drops exactly when a present key is removed; with load at least 10, or a refused shrink, the array is walked in place; otherwise the table shrinks to next_prime(size/2); ok is then true exactly when the rehash completes and the delete walk in the shrunk buckets meets an empty bucket, and the buckets are the shrunk ones after the delete walk; when the rehash stalls the array, its contents and the size are untouched |
| HashTable.Table.ResizeUp | hash_table.c:140-143 | resizes to base 2*size with the content and count unchanged; for a base of at least 53, ok is true exactly when the rehash of the buckets completes, and the new buckets are its result; after a grow, every load the rehash's re-insertions check (with 0 up to count items placed) is at most 70, so none of them resizes again |
| HashTable.Table.ResizeDown | hash_table.c:145-148 | resizes to base size/2 with the content and count unchanged; a base below 53 is refused; otherwise ok is true exactly when the rehash completes, and the new buckets are its result; after a shrink called at load below 10, every load the rehash's re-insertions check is at most 70 |
| HashTable.Table.Resize | hash_table.c:77-109 | refuses a base below 53; otherwise ok is true exactly when the rehash of the old buckets into next_prime(base) empty ones completes, and then a fresh array holding its result is installed, with the same key/value pairs, the same count and no tombstone; when ok is false the table is untouched |
| HashTable.Table.Rehashed | hash_table.c:84-93 | the loop that inserts the old table's live items, in bucket order, into a new table of next_prime(base) buckets: ok is true exactly when RehashFrom is Some, and the new buckets are then its result, with the same key/value pairs and count and no tombstone |
| HashTable.Load | hash_table.c:153 | the load percentage count * 100 / size, between 0 and 100 while the count does not exceed the bucket count, which insert compares with 70 (hash_table.c:153-155) and delete with 10 (hash_table.c:201-203) |
| HashTable.GrowRehashNeverResizes | hash_table.c:84-93 | during the rehash of a grow, the load check of each re-insertion (hash_table.c:153-155) never fires |
| HashTable.ShrinkRehashNeverResizes | hash_table.c:84-93 | during the rehash of a shrink, the load check of each re-insertion never fires |
| Demo.InitialSizeIs53 | hash_table.c:45-47 | the stand-in for next_prime maps 53 to 53, so a new table has 53 buckets; next_prime itself (prime.h) is not modelled here |
| Demo.PlusProbesOneBucket | hash_table.c:123-131 | in a 53-bucket table the key "+" has h2 = 52, so every attempt visits bucket 49, which is also the first bucket of "aM" |
| Demo.ChienScenario | main.c:7-11 | the demonstration program: in a new table, inserting "chien" -> "dog" and searching it yields "dog"; extended with a delete, after which search yields None and count is 0 |
| Demo.StalledInsert | hash_table.c:151-177 | in a new table, inserting "aM" succeeds and then inserting "+" is exhausted |

## Left out

- Memory ownership is not modelled: item creation and release, `ht_del_hash_table`, and
  the `strdup`/`free` pairs. Keys and values are Dafny strings (values), and allocation
  always succeeds. The allocation wrappers of xmalloc.c are not used by the table.
- Two defects in the release code are not reproduced. Releasing a table frees the static
  tombstone (hash_table.c:67-69). The swap in `ht_resize` reads `size` after
  overwriting it, so the old array is released with the new size (hash_table.c:95-108).
  The model keeps only the intended effect: the table takes the new size, count and array.
- `ht_hash` computes each power in floating point and truncates it to `long`. The model
  uses exact integers, and a key is a sequence of characters, each taken as one
  non-negative code. On an LP64 platform (64-bit `long`) whose `pow` returns the exact
  result whenever it is representable (glibc on x86-64, for instance), the two agree for
  keys of ASCII characters (codes below 128) of at most 6 characters. The largest power
  is then at most 163^7, which is below 2^53, so the floating-point power is exact. The `Demo` keys meet this condition. For longer keys
  the C powers are inexact. From 7 characters on, the product of a power and a
  character code can also overflow `long`. Where `long` is 32 bits wide (64-bit Windows,
  32-bit targets), `(long) pow(151, 6)` already overflows, so even the 5-character key
  "chien" hashes differently there. Where `pow` may be inexact, agreement is not promised
  for any key. A non-ASCII
  character is one code here, but several UTF-8 bytes in a C string.
- Where plain `char` is signed (x86, for instance; on ARM it is unsigned), a byte of 128
  or more is read as a negative `char` (hash_table.c:117). C's `%`
  truncates toward zero, so the hash can then be negative. `ht_get_hash` then returns a
  negative index, and the table reads outside its array (hash_table.c:128-131, 159, 182).
  The model has no such keys: every character code is non-negative, as it is in C where
  plain `char` is unsigned.
- 32-bit overflow of `count * 100` and of `attempt * (h2 + 1)` is not modelled. The
  integers are unbounded.
- Prime.NextPrime: prime.h is not part of this model. The stand-in's scan stops at twice
  its start, so the contract admits that bound as a result. Bertrand's postulate, which rules the
  bound out, is not proved.
- The `size_index` field of the table record is never read or written, so it is not modelled.
- HashTable.Table.Search: when the walk is exhausted the C function never returns. The
  model returns None there.
- HashTable.Table.Insert, HashTable.Table.Delete, HashTable.Table.Resize: when a probe
  walk is exhausted the C function never returns. These methods return `ok == false`
  instead, and the contract says what the table then holds. If a resize's rehash stalls,
  the table is left untouched; for Insert and Delete this is the stalled grow or shrink,
  before any store or delete walk. When a rehash stalls is predicted by `Slots.RehashFrom`.
- HashTable.Table.Rehashed: the rehash stores each item without the load check of
  `ht_insert`. The last ensures of `ResizeUp` and `ResizeDown` show that this check never
  fires when the resize comes from a grow, or from a shrink at load below 10. Those are
  the only two callers.
- The table is assumed to be used by one thread at a time.
