# non_std single-threaded containers in Dafny

A Dafny model of the sequential core of the `non_std` C++ library, with
proofs about it. It has one module per source file:

- `PoolAlloc` (`pool_allocator.dfy`) models `PoolAllocator`, which hands out
  slots from pools of 256 nodes. Four 64-bit words per pool mark the free
  slots, and the pools sit on an "available" list or a "fully allocated"
  list.
- `Bits` (`bits.dfy`) holds the 64-bit words seen as their bits, the
  `findFirstSet` intrinsic, and powers of two with their integer logarithm.
- `ChainedHashMap` (`hash_map.dfy`) models `HashMap`, a separately chained
  map with `2^W` buckets whose nodes come from the pool allocator.
- `AgedHashTable` (`aged_table.dfy`) models
  `FixedSizeHashTableOpenHashingWithAge`, an open-addressing cache. It probes
  five consecutive buckets and evicts by age.
- `AgedTableTests` (`aged_table_tests.dfy`) replays the repository's test of
  that table through the model's operations.
- `RehashingTable` (`rehashing_table.dfy`) models `HashTableWithRehashing`,
  which probes along a `Hash`, `Rehash`, `Rehash`, ... chain and never
  removes an entry.
- `StringAlgorithms` (`string_algorithms.dfy`) models `ltrim`, `rtrim`,
  `trim`, `splitAndTrim`, `splitAndTrimByStr` and `splitNumbersAndLetters`.
- `FibonacciHeap` (`fibonacci_heap.dfy`) models the Fibonacci max-heap:
  `insert`, `top`, `empty`, `pop` and its consolidation.
- `Options` (`options.dfy`) holds the `Option` type used throughout.

Objects whose fields the C++ code updates in place are classes:

- `PoolAlloc.PoolAllocator`
- `ChainedHashMap.HashMap`
- `AgedHashTable.AgedTable`
- `RehashingTable.Table`
- `FibonacciHeap.Heap`

Their loops are methods with loop invariants. Each method is proved against
a specification function over the state. The properties the code promises
are lemmas about those functions. The string functions are pure functions
plus the loop methods `SplitAndTrim`, `SplitAndTrimByStr` and
`SplitNumbersAndLetters`.

A pointer into an allocator pool is modelled as a `Slot`, a pool number and
a node index. A pointer to a bucket is the bucket's index. A linked node of
the heap is a `Tree` value: the node together with the trees of its
children. A circular list is the sequence read from its entry node along
`next`.

## Model

| member | source | states |
|---|---|---|
| Bits.ZeroIffNoBitSet | non_std/PoolAlocator.hpp:47 | a word equals `0x0` exactly when none of its 64 bits is set |
| Bits.Flip | non_std/PoolAlocator.hpp:50 | `w ^ (1 << b)` inverts bit `b` and keeps every other bit |
| Bits.FindFirstSet | non_std/BitOperations/Intrincts.hpp:8-13 | returns 0 exactly for the zero word; otherwise returns one plus the index of the lowest set bit, and every lower bit is clear |
| Bits.Log2Floor | non_std/containers/FibonacciHeap.h:247 | the integer `floor(log2 n)`: `2^r <= n < 2^(r+1)` |
| Bits.Log2FloorBound | non_std/containers/FibonacciHeap.h:247 | any `k` with `2^k <= n` is at most `floor(log2 n)` |
| PoolAlloc.FreshMaskAllFree | non_std/PoolAlocator.hpp:19 | a new pool's four all-ones words mark all 256 slots free, so the pool is not full |
| PoolAlloc.FullIffNoFreeSlot | non_std/PoolAlocator.hpp:110-114 | `isFull` (all four words zero) holds exactly when no slot is free |
| PoolAlloc.IsFull | non_std/PoolAlocator.hpp:110-114 | `isFull`: all four allocation words are zero; `FullIffNoFreeSlot` proves this means no slot is free |
| PoolAlloc.Toggle | non_std/PoolAlocator.hpp:72-76 | XOR of bit `index & 63` of word `index >> 6` flips the free state of slot `index` and of no other slot |
| PoolAlloc.ToggleTwiceRestores | non_std/PoolAlocator.hpp:72-76 | toggling the same slot twice restores the masks, so `allocate` followed by `dealocate` of the returned slot restores them |
| PoolAlloc.LowestFreeSlot | non_std/PoolAlocator.hpp:45-52 | for the first non-zero word `i`, slot `i*64 + findFirstSet - 1` is below 256 and free, every lower slot is taken, and the XOR clears exactly that slot |
| PoolAlloc.ToggleToFreeNotFull | non_std/PoolAlocator.hpp:68-76 | freeing a taken slot leaves the pool not full |
| PoolAlloc.WithoutRemovesOne | non_std/PoolAlocator.hpp:127-136 | unlinking pool `p` from a list removes exactly one occurrence of `p` |
| PoolAlloc.Without | non_std/PoolAlocator.hpp:127-136 | unlinking the first `p` shortens the list by exactly one; `WithoutRemovesOne` says that the one removed is `p` |
| PoolAlloc.RelinkToAvailableAsWritten | non_std/PoolAlocator.hpp:127-136 | `moveToAvaiable` as written: `in` goes to the front of the available list and the full list becomes what followed `in`; `AsWrittenLosesHead` shows the pools this loses (as-written half of the finding) |
| PoolAlloc.RelinkToAvailable | non_std/PoolAlocator.hpp:127-136 | the corrected `moveToAvaiable`: `in` is unlinked from wherever it sits; `RelinkToAvailablePermutes` proves that no pool is lost or duplicated |
| PoolAlloc.AsWrittenCorrectAtHead | non_std/PoolAlocator.hpp:127-136 | when `in` heads the full list, `fullyAllocatedPools_ = in->next` agrees with unlinking `in`, and `in` becomes the head of the available list |
| PoolAlloc.AsWrittenLosesHead | non_std/PoolAlocator.hpp:129 | when `in` is not the head of the full list, the relinking as written drops the old head from both lists and loses at least one pool |
| PoolAlloc.AsWrittenDropsNewestFullPool | non_std/PoolAlocator.hpp:129 | with full list `[1, 0]`, moving pool 0 back leaves available `[0]` and full `[]`, so pool 1 is lost |
| PoolAlloc.RelinkToAvailablePermutes | non_std/PoolAlocator.hpp:127-136 | the corrected `moveToAvaiable` puts `p` at the head of the available list, removes exactly `p` from the full list, and keeps the pools of both lists and their distinctness |
| PoolAlloc.ReversedPermutes | non_std/PoolAlocator.hpp:89-92 | moving the full pools one by one onto the available list reverses them and loses none |
| PoolAlloc.AllocatedAfterAllocate | non_std/PoolAlocator.hpp:49-52 | taking a free slot adds exactly that slot to the set of allocated slots |
| PoolAlloc.AllocatedAfterDealocate | non_std/PoolAlocator.hpp:72-76 | freeing a taken slot removes exactly that slot from the set of allocated slots |
| PoolAlloc.AllocatedAfterNewPool | non_std/PoolAlocator.hpp:39-42 | a new pool adds no allocated slot |
| PoolAlloc.AllocatedAllFresh | non_std/PoolAlocator.hpp:93-101 | when every pool's words are all ones, no slot is allocated |
| PoolAlloc.LinkedPermutation | non_std/PoolAlocator.hpp:116-136 | any relinking that keeps the multiset of pools on the two lists keeps the lists a partition of all pools without repeats |
| PoolAlloc.LinkedDistinct | non_std/PoolAlocator.hpp:116-136 | no pool is on both lists, and the head of the available list occurs there once |
| PoolAlloc.LinkedMoveHead | non_std/PoolAlocator.hpp:116-125 | moving the head of the available list to the head of the full list keeps the partition |
| PoolAlloc.ConsistentAfterNewPool | non_std/PoolAlocator.hpp:39-42 | a new pool as the only available pool keeps every available pool non-full and every full pool full |
| PoolAlloc.ConsistentAfterAllocateStays | non_std/PoolAlocator.hpp:47-59 | taking a slot that leaves the head pool non-full keeps the lists consistent |
| PoolAlloc.ConsistentAfterAllocateFills | non_std/PoolAlocator.hpp:55-58 | a pool whose last free slot is taken leaves the available list and becomes the head of the full list, and the lists stay consistent |
| PoolAlloc.ConsistentAfterDealocateFromAvailable | non_std/PoolAlocator.hpp:65-77 | freeing a slot of a non-full pool keeps the lists consistent |
| PoolAlloc.ConsistentAfterDealocateFromFull | non_std/PoolAlocator.hpp:68-71 | a full pool is on the full list; freeing one of its slots after the corrected relinking keeps the lists consistent |
| PoolAlloc.ConsistentAllFresh | non_std/PoolAlocator.hpp:87-102 | once every available pool is reset and the full list is empty, every pool has all slots free and the lists are consistent |
| PoolAlloc.PoolAllocator.constructor | non_std/PoolAlocator.hpp:30-35 | no pools, both lists empty, nothing allocated |
| PoolAlloc.PoolAllocator.Allocate | non_std/PoolAlocator.hpp:37-64 | always returns a slot (never null), the lowest free slot of the head available pool, created when the list is empty; clears exactly that slot; moves the pool to the full list exactly when it became full; allocated set grows by exactly that slot |
| PoolAlloc.PoolAllocator.MoveToFullyAllocated | non_std/PoolAlocator.hpp:116-125 | the head of the available list becomes the head of the full list |
| PoolAlloc.PoolAllocator.MoveToAvailable | non_std/PoolAlocator.hpp:127-136 | the lists after the corrected relinking of `p` |
| PoolAlloc.PoolAllocator.Dealocate | non_std/PoolAlocator.hpp:65-77 | flips exactly the freed slot; a full pool is first relinked to the available list; the allocated set shrinks by exactly that slot |
| PoolAlloc.PoolAllocator.ClearAll | non_std/PoolAlocator.hpp:87-102 | full list emptied onto the available list (reversed), every pool's words all ones, nothing allocated, no pool lost |
| PoolAlloc.PoolAllocator.ReturnFullPools | non_std/PoolAlocator.hpp:89-92 | the first loop of `clearAll`: full list empty, available list is the reversed full list followed by the old available list |
| PoolAlloc.PoolAllocator.ResetAvailablePools | non_std/PoolAlocator.hpp:93-101 | the second loop of `clearAll`: every available pool's words are all ones and no other pool changes |
| ChainedHashMap.FirstWithKey | non_std/containers/HashMap.hpp:80-86 | the walk along `next` stops at the first node with the key, or at the end when there is none |
| ChainedHashMap.Find | non_std/containers/HashMap.hpp:80-86 | a node it finds is in the chain and has the key; it finds nothing exactly when no node of the chain has the key |
| ChainedHashMap.FindAfterPrepend | non_std/containers/HashMap.hpp:105-111 | a node pushed on a chain shadows older nodes with its key and hides no other key |
| ChainedHashMap.AddressesAfterPush | non_std/containers/HashMap.hpp:99-101 | pushing a node adds exactly its address to the nodes in use |
| ChainedHashMap.AddressesAllEmpty | non_std/containers/HashMap.hpp:61-69 | empty buckets hold no node |
| ChainedHashMap.Bucket | non_std/containers/HashMap.hpp:78 | `key & (2^W - 1)` is a bucket index below `2^W` |
| ChainedHashMap.LookupAfterPush | non_std/containers/HashMap.hpp:99-111 | after prepending `(k, v)` to bucket `k & mask`, a lookup of `k` finds the new node, every other key's lookup is unchanged, and every node stays in its key's bucket |
| ChainedHashMap.LookupComplete | non_std/containers/HashMap.hpp:76-87 | a lookup finds nothing exactly when no node of any bucket has the key |
| ChainedHashMap.HashMap.constructor | non_std/containers/HashMap.hpp:39-42 | `2^W` empty buckets; every lookup finds nothing |
| ChainedHashMap.HashMap.Get | non_std/containers/HashMap.hpp:76-87 | returns the first node with the key in its bucket's chain, or null exactly when no node has the key; changes nothing |
| ChainedHashMap.HashMap.Index | non_std/containers/HashMap.hpp:89-103 | a present key: returns its node, allocates nothing, changes nothing; an absent key: prepends `(key, TValue{})` from a fresh slot; afterwards `get(key)` returns the node and no other key's result changes |
| ChainedHashMap.HashMap.Store | non_std/containers/HashMap.hpp:105-112 | always prepends `(key, val)` from a fresh slot, even for a present key; `get(key)` then returns it and no other key's result changes |
| ChainedHashMap.HashMap.Push | non_std/containers/HashMap.hpp:99-101 | allocates a fresh slot and links the new node at the head of bucket `key & mask`, changing no other bucket |
| ChainedHashMap.HashMap.Clear | non_std/containers/HashMap.hpp:61-69 | every bucket empty, every lookup finds nothing, no slot of the allocator in use |
| AgedHashTable.NextBucket | non_std/containers/FixedSizeHashTableOpenHashingWithAge.hpp:126-129 | `getBucket` stays inside the table |
| AgedHashTable.NextBucketIsModulo | non_std/containers/FixedSizeHashTableOpenHashingWithAge.hpp:126-129 | `(1 + b) & hashMask` is `(1 + b) mod size`, wrapping from the last bucket to the first |
| AgedHashTable.Probe | non_std/containers/FixedSizeHashTableOpenHashingWithAge.hpp:103-120 | every probed bucket is inside the table |
| AgedHashTable.FirstStop | non_std/containers/FixedSizeHashTableOpenHashingWithAge.hpp:105-121 | the probe loop stops at the first of at most five buckets that holds the key or is free; none before it stops |
| AgedHashTable.FirstStopAt | non_std/containers/FixedSizeHashTableOpenHashingWithAge.hpp:105-121 | a probe position before which nothing stops, and at which the loop stops, is where the loop stops |
| AgedHashTable.GetSlotFound | non_std/containers/FixedSizeHashTableOpenHashingWithAge.hpp:105-114 | a slot `get` finds holds the key and is one of the five probed buckets |
| AgedHashTable.GetSlotMissing | non_std/containers/FixedSizeHashTableOpenHashingWithAge.hpp:115-119 | if `get` misses a key held in the window, a free bucket before it stopped the search |
| AgedHashTable.GetSlotAt | non_std/containers/FixedSizeHashTableOpenHashingWithAge.hpp:105-114 | the first probed bucket holding the key, with no free bucket before it, is what `get` returns |
| AgedHashTable.GetSlot | non_std/containers/FixedSizeHashTableOpenHashingWithAge.hpp:105-121 | the slot `get` finds is inside the table and holds the key, occupied or locked; `GetSlotFound`, `GetSlotMissing` and `GetSlotAt` tie it to the first stop of the probe loop |
| AgedHashTable.Victim | non_std/containers/FixedSizeHashTableOpenHashingWithAge.hpp:175-212 | the eviction choice of `operator[]` is a bucket of the table |
| AgedHashTable.VictimFromCorrect | non_std/containers/FixedSizeHashTableOpenHashingWithAge.hpp:192-211 | the rest of the eviction loop finds nothing only when all five buckets are locked; otherwise it finds the oldest unlocked one, a deleted bucket winning outright |
| AgedHashTable.OldestAmongExtend | non_std/containers/FixedSizeHashTableOpenHashingWithAge.hpp:205-210 | one more probed bucket, locked or no younger, keeps the choice the oldest |
| AgedHashTable.VictimCorrect | non_std/containers/FixedSizeHashTableOpenHashingWithAge.hpp:175-213 | `oldestElem` is null exactly when all five probed buckets are locked; otherwise it is the oldest unlocked probed bucket, or a deleted one |
| AgedHashTable.StoreVictim | non_std/containers/FixedSizeHashTableOpenHashingWithAge.hpp:136-165 | the eviction choice of `store` is a bucket of the table |
| AgedHashTable.StoreVictimFromCorrect | non_std/containers/FixedSizeHashTableOpenHashingWithAge.hpp:152-164 | the rest of `store`'s loop always picks a probed bucket: a deleted one when any probed bucket is deleted, else one with the largest age |
| AgedHashTable.StoreVictimCorrect | non_std/containers/FixedSizeHashTableOpenHashingWithAge.hpp:136-166 | `store` never dereferences a null `oldestElem`; it overwrites the newest probed bucket (the comparison as written) |
| AgedHashTable.WithCreated | non_std/containers/FixedSizeHashTableOpenHashingWithAge.hpp:217-223 | `create` writes key, value, the new age and `occupied` to one slot and no other |
| AgedHashTable.WithLocked | non_std/containers/FixedSizeHashTableOpenHashingWithAge.hpp:37-42 | a `PersistPointer` locks its slot and no other |
| AgedHashTable.GetStep | non_std/containers/FixedSizeHashTableOpenHashingWithAge.hpp:99-124 | `get` on the whole table: a hit is stamped with `++age_` and locked, a miss changes nothing; `GetStepHit` and `GetKeepsValid` state it |
| AgedHashTable.IndexFinish | non_std/containers/FixedSizeHashTableOpenHashingWithAge.hpp:180-214 | how `operator[]` ends on its slot: a stop at the key only locks it, a free or evicted slot is created with `TValue{}` and locked; `IndexStepPresent` and `IndexStepAbsent` state it |
| AgedHashTable.IndexStep | non_std/containers/FixedSizeHashTableOpenHashingWithAge.hpp:169-215 | `operator[]` on the whole table; `IndexStepWrites`, `IndexThenGet` and `IndexKeepsValid` state what it changes |
| AgedHashTable.Released | non_std/containers/FixedSizeHashTableOpenHashingWithAge.hpp:43-46 | the destructor of a pointer makes its slot occupied again and changes no other slot and not `age_` |
| AgedHashTable.StoreFinish | non_std/containers/FixedSizeHashTableOpenHashingWithAge.hpp:141-166 | how `store` ends on its slot: an occupied slot with the key gets the value and `++age_`, any other is created; `StoreThenGet` states it |
| AgedHashTable.StoreStep | non_std/containers/FixedSizeHashTableOpenHashingWithAge.hpp:131-167 | `store` on the whole table; `StoreSlotDefined`, `StoreThenGet` and `StoreKeepsValid` state it |
| AgedHashTable.IndexSlot | non_std/containers/FixedSizeHashTableOpenHashingWithAge.hpp:169-213 | the slot `operator[]` returns is a bucket of the table |
| AgedHashTable.StoreSlot | non_std/containers/FixedSizeHashTableOpenHashingWithAge.hpp:131-166 | the slot `store` writes is a bucket of the table |
| AgedHashTable.FoundAfterWrite | non_std/containers/FixedSizeHashTableOpenHashingWithAge.hpp:105-114 | a write that makes a probed bucket hold the key, with nothing stopping the search before it, makes `get` find that bucket |
| AgedHashTable.GetStepHit | non_std/containers/FixedSizeHashTableOpenHashingWithAge.hpp:107-113 | a `get` hit sets the slot's age to `++age_`, strictly above every other age; the slot is locked and no other slot changes |
| AgedHashTable.IndexSlotDefined | non_std/containers/FixedSizeHashTableOpenHashingWithAge.hpp:192-213 | `operator[]` has a slot exactly when its probe loop stops or some probed bucket is not locked |
| AgedHashTable.IndexStepPresent | non_std/containers/FixedSizeHashTableOpenHashingWithAge.hpp:180-185 | for a present key `operator[]` returns the slot `get` would find, leaves its age and `age_` unchanged, and only locks it |
| AgedHashTable.IndexStepAbsent | non_std/containers/FixedSizeHashTableOpenHashingWithAge.hpp:186-213 | for an absent key `operator[]` creates `(key, TValue{})` with age `age_ + 1`, in the first free probed bucket, or else in the oldest unlocked one |
| AgedHashTable.IndexStepWrites | non_std/containers/FixedSizeHashTableOpenHashingWithAge.hpp:186-214 | `operator[]` changes only the returned slot, which then holds the key and lies in the window with nothing stopping the search before it |
| AgedHashTable.IndexThenGet | non_std/containers/FixedSizeHashTableOpenHashingWithAge.hpp:186-191 | after `operator[](key)`, `get(key)` finds the slot it returned |
| AgedHashTable.IndexReleaseThenGet | non_std/containers/FixedSizeHashTableOpenHashingWithAge.hpp:43-46 | the same holds once the returned pointer is destroyed and the slot is occupied again |
| AgedHashTable.StoreSlotDefined | non_std/containers/FixedSizeHashTableOpenHashingWithAge.hpp:136-166 | `store` always has a slot to write |
| AgedHashTable.StoreThenGet | non_std/containers/FixedSizeHashTableOpenHashingWithAge.hpp:139-166 | with no locked bucket in the window, after `store(key, val)`, `get(key)` finds a slot holding `(key, val)` |
| AgedHashTable.GetKeepsValid | non_std/containers/FixedSizeHashTableOpenHashingWithAge.hpp:111 | `get` keeps the table invariant (every age at most `age_`, every slot in use stamped) and `age_` never decreases |
| AgedHashTable.IndexKeepsValid | non_std/containers/FixedSizeHashTableOpenHashingWithAge.hpp:217-223 | `operator[]` keeps the table invariant and `age_` never decreases |
| AgedHashTable.StoreKeepsValid | non_std/containers/FixedSizeHashTableOpenHashingWithAge.hpp:144 | `store` has a slot, keeps the table invariant and raises `age_` by one |
| AgedHashTable.ReleaseKeepsValid | non_std/containers/FixedSizeHashTableOpenHashingWithAge.hpp:43-46 | releasing a pointer keeps the invariant and `age_` |
| AgedHashTable.GetFromAt | non_std/containers/FixedSizeHashTableOpenHashingWithAge.hpp:105-123 | the loop of `get` from probe `i` on ends at the first stop: a hit is stamped and locked, anything else returns null and changes nothing |
| AgedHashTable.GetFromIsStep | non_std/containers/FixedSizeHashTableOpenHashingWithAge.hpp:99-124 | the loop form of `get` agrees with its declarative description |
| AgedHashTable.GetFrom | non_std/containers/FixedSizeHashTableOpenHashingWithAge.hpp:105-123 | the probe loop of `get` as written, from try `i`; `GetFromAt` and `GetFromIsStep` prove it equals `GetStep` |
| AgedHashTable.IndexFromAt | non_std/containers/FixedSizeHashTableOpenHashingWithAge.hpp:178-213 | the loop of `operator[]` from probe `i` on ends at the first stop, else at the eviction choice, else in the null dereference |
| AgedHashTable.IndexFromIsStep | non_std/containers/FixedSizeHashTableOpenHashingWithAge.hpp:169-215 | the loop form of `operator[]` succeeds exactly when the declarative one has a slot, and then agrees with it |
| AgedHashTable.IndexFrom | non_std/containers/FixedSizeHashTableOpenHashingWithAge.hpp:178-214 | the loop of `operator[]` as written, carrying `oldestElem` and `oldestAge`; `IndexFromAt` and `IndexFromIsStep` prove it equals `IndexStep` |
| AgedHashTable.StoreFromAt | non_std/containers/FixedSizeHashTableOpenHashingWithAge.hpp:139-166 | the loop of `store` from probe `i` on ends at the first stop or at its eviction choice |
| AgedHashTable.StoreFromIsStep | non_std/containers/FixedSizeHashTableOpenHashingWithAge.hpp:131-167 | the loop form of `store` always succeeds and agrees with its declarative description |
| AgedHashTable.StoreFrom | non_std/containers/FixedSizeHashTableOpenHashingWithAge.hpp:139-166 | the loop of `store` as written; `StoreFromAt` and `StoreFromIsStep` prove it equals `StoreStep` |
| AgedHashTable.GetFromKeepsValid | non_std/containers/FixedSizeHashTableOpenHashingWithAge.hpp:99-124 | the loop form of `get` keeps the table invariant |
| AgedHashTable.IndexFromKeepsValid | non_std/containers/FixedSizeHashTableOpenHashingWithAge.hpp:169-215 | the loop form of `operator[]` keeps the table invariant |
| AgedHashTable.StoreFromKeepsValid | non_std/containers/FixedSizeHashTableOpenHashingWithAge.hpp:131-167 | the loop form of `store` succeeds and keeps the table invariant |
| AgedHashTable.VictimOldestAlone | non_std/containers/FixedSizeHashTableOpenHashingWithAge.hpp:192-211 | when all five probed buckets are occupied and the one at try `p` is strictly older than every other, the eviction loop of `operator[]` picks it |
| AgedTableTests.CollidingKey | tests/FixedSizeHashTableOpenHashingWIthAgeTests.cpp:37-41 | every key of the second test falls in bucket 1 of eight slots, as the test's keys all share one bucket, and is none of the keys `testGivenKey` wrote |
| AgedTableTests.ProbesOfBucketOne | non_std/containers/FixedSizeHashTableOpenHashingWithAge.hpp:126-129 | in eight slots the probe sequence of a bucket-1 key is the slots 1 to 5 |
| AgedTableTests.GivenKeyTested | tests/FixedSizeHashTableOpenHashingWIthAgeTests.cpp:26-32 | `testGivenKey(key)` is defined exactly when `operator[]` has a slot; it keeps the slot count and never lowers the age |
| AgedTableTests.IndexWritten | tests/FixedSizeHashTableOpenHashingWIthAgeTests.cpp:42 | `hastTable[key]->field3 = v` is defined exactly when `operator[]` has a slot; it keeps the slot count and never lowers the age |
| AgedTableTests.GetReleased | tests/FixedSizeHashTableOpenHashingWIthAgeTests.cpp:49-51 | a `get` whose pointer is destroyed at once keeps the slot count and never lowers the age |
| AgedTableTests.KeyChecked | tests/FixedSizeHashTableOpenHashingWIthAgeTests.cpp:46-52 | one round of the checking loop keeps the slot count and never lowers the age |
| AgedTableTests.GivenLoop | tests/FixedSizeHashTableOpenHashingWIthAgeTests.cpp:63-66 | the loop of `test()` over `testGivenKey` keeps the slot count |
| AgedTableTests.CreateLoop | tests/FixedSizeHashTableOpenHashingWIthAgeTests.cpp:38-43 | the first loop of the test keeps the slot count |
| AgedTableTests.CheckLoop | tests/FixedSizeHashTableOpenHashingWIthAgeTests.cpp:46-52 | the checking loop keeps the slot count and never lowers the age |
| AgedTableTests.GivenSlots | tests/FixedSizeHashTableOpenHashingWIthAgeTests.cpp:26-32 | after `testGivenKey` for the keys 1 to `n`, slot `j` holds key `j` with value 3 and age `2j`, and the other slots are free |
| AgedTableTests.CreatedSlots | tests/FixedSizeHashTableOpenHashingWIthAgeTests.cpp:38-43 | after `n` iterations of the first loop, slots 1 to `n` hold the new keys with their iteration numbers as values and ages 15 to `14 + n`; the later slots still hold the keys `testGivenKey` left |
| AgedTableTests.CheckedSlots | tests/FixedSizeHashTableOpenHashingWIthAgeTests.cpp:46-52 | after `n` rounds, slots 1 to `n` carry age `19 + 3j`, slots `n + 1` to 5 keep the age of their creation, and keys and values are untouched |
| AgedTableTests.IndexWrittenAbsent | non_std/containers/FixedSizeHashTableOpenHashingWithAge.hpp:186-214 | writing through `operator[]` for a key `get` misses creates `(key, v)` with age `age_ + 1` in the slot `operator[]` picks, unlocked again, and changes nothing else |
| AgedTableTests.GivenKeyIntoFree | non_std/containers/FixedSizeHashTableOpenHashingWithAge.hpp:186-191 | `testGivenKey` for a key whose first probed slot is free creates it there with value 3, and the read stamps it once more |
| AgedTableTests.KeyCheckedHit | non_std/containers/FixedSizeHashTableOpenHashingWithAge.hpp:107-113 | three `get`s hitting an occupied slot stamp only that slot and end three ages later |
| AgedTableTests.GivenKeyStep | tests/FixedSizeHashTableOpenHashingWIthAgeTests.cpp:28-31 | `testGivenKey(n + 1)` creates key `n + 1` in its own slot, and `get` finds it with the value 3, as the test asserts |
| AgedTableTests.GivenLoopFrom | tests/FixedSizeHashTableOpenHashingWIthAgeTests.cpp:63-66 | the `testGivenKey` loop from key `n + 1` on ends with keys 1 to 7 in slots 1 to 7 |
| AgedTableTests.CreateLoopFindsNoSlot | non_std/containers/FixedSizeHashTableOpenHashingWithAge.hpp:180-191 | in each iteration of the first loop all five probed slots are in use by other keys, so the probe loop runs through all five tries |
| AgedTableTests.CreateLoopEvicts | non_std/containers/FixedSizeHashTableOpenHashingWithAge.hpp:192-213 | in iteration `n`, `get` misses the new key and `operator[]` evicts slot `n + 1`, the oldest probed slot, which holds the older key `n + 1` |
| AgedTableTests.CreateLoopStep | tests/FixedSizeHashTableOpenHashingWIthAgeTests.cpp:40-42 | iteration `n` creates its key in slot `n + 1`, evicting the key `testGivenKey` left there |
| AgedTableTests.CreateLoopFrom | tests/FixedSizeHashTableOpenHashingWIthAgeTests.cpp:38-43 | the first loop from iteration `n` on ends with all five keys created |
| AgedTableTests.CheckLoopFinds | tests/FixedSizeHashTableOpenHashingWIthAgeTests.cpp:47-51 | in round `n`, `get` finds key `n` in slot `n + 1` with value `n`, as the test asserts, with no earlier probed slot stopping the search |
| AgedTableTests.CheckLoopStep | tests/FixedSizeHashTableOpenHashingWIthAgeTests.cpp:47-51 | round `n` of the checking loop stamps slot `n + 1` three times and changes nothing else |
| AgedTableTests.CheckLoopFrom | tests/FixedSizeHashTableOpenHashingWIthAgeTests.cpp:46-52 | the checking loop from round `n` on ends with every key read three times |
| AgedTableTests.GivenKeysSpelledOut | tests/FixedSizeHashTableOpenHashingWIthAgeTests.cpp:61-66 | the constructor builds eight free slots, and `testGivenKey` for keys 1 to 7 leaves key `j` with value 3 and age `2j` in slot `j` |
| AgedTableTests.FiveKeysSpelledOut | tests/FixedSizeHashTableOpenHashingWIthAgeTests.cpp:38-44 | after the first loop slots 1 to 5 hold the five keys with ages 15 to 19 and values 0 to 4; slots 6 and 7 keep keys 6 and 7 |
| AgedTableTests.FiveReadKeysSpelledOut | tests/FixedSizeHashTableOpenHashingWIthAgeTests.cpp:46-52 | after the checking loop the five slots carry ages 22, 25, 28, 31, 34 and the table age is 34 |
| AgedTableTests.FiveKeysCreatedAndRead | tests/FixedSizeHashTableOpenHashingWIthAgeTests.cpp:34-52 | both loops, run on the table `testGivenKey` leaves, evict the older keys and leave the five new keys in slots 1 to 5, the first key's slot read longest ago |
| AgedTableTests.SixthKeyEvictsOldest | tests/FixedSizeHashTableOpenHashingWIthAgeTests.cpp:54-55 | with every probed slot taken, a sixth key evicts the slot of lowest age, the first key's, and gets the value 1001 |
| AgedTableTests.OldestKeyGone | tests/FixedSizeHashTableOpenHashingWIthAgeTests.cpp:57 | afterwards `get` misses the first key, finds the other four keys in slots 2 to 5, and finds the new key in slot 1 |
| AgedHashTable.AgedTable.constructor | non_std/containers/FixedSizeHashTableOpenHashingWithAge.hpp:77-80 | `2^bits` free default slots and `age_` zero |
| AgedHashTable.AgedTable.Get | non_std/containers/FixedSizeHashTableOpenHashingWithAge.hpp:99-124 | the probe loop's result and new state are those of the loop form of `get` |
| AgedHashTable.AgedTable.Index | non_std/containers/FixedSizeHashTableOpenHashingWithAge.hpp:169-215 | the probe loop's slot and new state are those of the loop form of `operator[]` |
| AgedHashTable.AgedTable.Store | non_std/containers/FixedSizeHashTableOpenHashingWithAge.hpp:131-167 | the probe loop's new state is that of the loop form of `store` |
| AgedHashTable.AgedTable.Create | non_std/containers/FixedSizeHashTableOpenHashingWithAge.hpp:217-223 | `++age_`, and the slot gets key, value, that age and `occupied` |
| AgedHashTable.AgedTable.AcquirePointer | non_std/containers/FixedSizeHashTableOpenHashingWithAge.hpp:37-42 | the slot becomes locked |
| AgedHashTable.AgedTable.ReleasePointer | non_std/containers/FixedSizeHashTableOpenHashingWithAge.hpp:43-46 | a non-null pointer's slot becomes occupied again; a null pointer changes nothing |
| RehashingTable.Probe | non_std/containers/HashTableWithRehashing.hpp:35-51 | the `i`-th bucket of the chain `Hash`, `Rehash`, ... masked to the table is inside the table |
| RehashingTable.FirstAccepted | non_std/containers/HashTableWithRehashing.hpp:38-52 | the loop stops at the first of the `HashRetries + 1` buckets that holds the key (or is empty, for `operator[]`) |
| RehashingTable.GetSlot | non_std/containers/HashTableWithRehashing.hpp:56-72 | `get` returns the first probed bucket holding the key, skipping empty ones; null exactly when no probed bucket holds it |
| RehashingTable.IndexSlot | non_std/containers/HashTableWithRehashing.hpp:33-54 | `operator[]` returns the first probed bucket that is empty or holds the key; null exactly when every probed bucket holds another key |
| RehashingTable.Stored | non_std/containers/HashTableWithRehashing.hpp:74-89 | `store`'s table has the same number of buckets |
| RehashingTable.StoredStep | non_std/containers/HashTableWithRehashing.hpp:79-88 | each round of `store` writes `(key, val)` into its bucket when that bucket is empty or holds the key, and changes nothing otherwise |
| RehashingTable.StoredNone | non_std/containers/HashTableWithRehashing.hpp:74-78 | before the loop nothing is written |
| RehashingTable.IndexThenGet | non_std/containers/HashTableWithRehashing.hpp:40-48 | after `operator[](k)` returned a slot, `get(k)` returns that same slot |
| RehashingTable.IndexKeepsEntries | non_std/containers/HashTableWithRehashing.hpp:40-43 | `operator[]` changes no occupied bucket; the only changed bucket is the returned one, now `(key, {})` |
| RehashingTable.Indexed | non_std/containers/HashTableWithRehashing.hpp:40-43 | the table after `operator[]`: only an empty accepting bucket changes, to `{key, {}}`; `IndexKeepsEntries` and `IndexThenGet` state it |
| RehashingTable.StoreKeepsKeys | non_std/containers/HashTableWithRehashing.hpp:81-83 | `store` keeps every occupied bucket occupied with the same key and writes only probed buckets |
| RehashingTable.StoreThenGet | non_std/containers/HashTableWithRehashing.hpp:79-88 | if some probed bucket accepted the key, `get(key)` then returns the first such bucket, which holds `(key, val)`; otherwise the table is unchanged |
| RehashingTable.Table.constructor | non_std/containers/HashTableWithRehashing.hpp:28-31 | `2^bits` empty buckets, for a width of at most 30 since `1 << TBucketBitWidth` is computed in `int` |
| RehashingTable.Table.Index | non_std/containers/HashTableWithRehashing.hpp:33-54 | the probe loop returns `IndexSlot` and leaves the table `Indexed` |
| RehashingTable.Table.Get | non_std/containers/HashTableWithRehashing.hpp:56-72 | the probe loop returns `GetSlot` and changes nothing |
| RehashingTable.Table.Store | non_std/containers/HashTableWithRehashing.hpp:74-89 | the probe loop leaves the table `Stored` after all `HashRetries + 1` rounds |
| StringAlgorithms.FirstNonSpace | non_std/StringAlgorithms/algorithm.cpp:5 | `find_first_not_of(' ')` from `i`: a position at or after `i` holding a non-space, or the end |
| StringAlgorithms.FirstNonSpaceSkipsSpaces | non_std/StringAlgorithms/algorithm.cpp:5 | every character it skips is a space |
| StringAlgorithms.SpacesBefore | non_std/StringAlgorithms/algorithm.cpp:15 | the reverse search from `j` stops after a non-space or at the start |
| StringAlgorithms.SpacesBeforeAreSpaces | non_std/StringAlgorithms/algorithm.cpp:15 | every character the reverse search skips is a space |
| StringAlgorithms.LTrim | non_std/StringAlgorithms/algorithm.cpp:3-11 | `ltrim` never lengthens its input |
| StringAlgorithms.LTrimCutsLeadingSpaces | non_std/StringAlgorithms/algorithm.cpp:3-11 | an all-space string comes back unchanged; otherwise the result is the suffix after the maximal leading run of spaces and starts with a non-space |
| StringAlgorithms.RTrim | non_std/StringAlgorithms/algorithm.cpp:13-17 | `rtrim` never lengthens its input |
| StringAlgorithms.RTrimCutsTrailingSpaces | non_std/StringAlgorithms/algorithm.cpp:13-17 | the result is the prefix before the maximal trailing run of spaces, so it does not end in a space (an all-space string gives `""`) |
| StringAlgorithms.Trim | non_std/StringAlgorithms/algorithm.cpp:19-22 | the result neither starts nor ends with a space |
| StringAlgorithms.TrimIsRTrimOfLTrim | non_std/StringAlgorithms/algorithm.cpp:19-22 | `trim` is `rtrim(ltrim(in))` |
| StringAlgorithms.TrimIsMiddle | non_std/StringAlgorithms/algorithm.cpp:19-22 | the result is a contiguous substring with only spaces before and after it |
| StringAlgorithms.TrimFixes | non_std/StringAlgorithms/algorithm.cpp:19-22 | a string without edge spaces is left unchanged by `ltrim`, `rtrim` and `trim` |
| StringAlgorithms.TrimIdempotent | non_std/StringAlgorithms/algorithm.cpp:19-22 | trimming twice is trimming once |
| StringAlgorithms.TrimKeepsOtherBlanks | non_std/StringAlgorithms/algorithm.cpp:5 | tabs and newlines are not removed: `trim(" \ta\n ")` is `"\ta\n"` |
| StringAlgorithms.OccursAtSlice | non_std/StringAlgorithms/algorithm.cpp:43 | the delimiter occurs at `p` exactly when the slice at `p` equals it |
| StringAlgorithms.FindStr | non_std/StringAlgorithms/algorithm.cpp:43 | a found position lies at or after `i` with the whole delimiter inside the string |
| StringAlgorithms.FindStrFirst | non_std/StringAlgorithms/algorithm.cpp:43 | `find(delimeter, i)` returns an occurrence, and no earlier position from `i` on is one; `npos` means there is none |
| StringAlgorithms.FindChar | non_std/StringAlgorithms/algorithm.cpp:29 | a found position lies at or after `i` and holds `c` |
| StringAlgorithms.FindCharFirst | non_std/StringAlgorithms/algorithm.cpp:29 | no position from `i` up to the found one (or to the end) holds `c` |
| StringAlgorithms.FieldsFrom | non_std/StringAlgorithms/algorithm.cpp:27-34 | the untrimmed fields of the `splitAndTrim` loop from `i`; `FieldsJoin`, `FieldsWithoutDelimiter`, `SplitKeepsEmptyFields` and `SplitDropsFinalEmptyField` state them |
| StringAlgorithms.FieldsByFrom | non_std/StringAlgorithms/algorithm.cpp:41-48 | the untrimmed fields of the `splitAndTrimByStr` loop; `FieldsByJoin`, `FieldsByWithoutDelimiter` and `FieldsByOneChar` state them |
| StringAlgorithms.TrimAll | non_std/StringAlgorithms/algorithm.cpp:30 | one trimmed field per field, in order |
| StringAlgorithms.FieldsJoin | non_std/StringAlgorithms/algorithm.cpp:27-34 | the untrimmed fields joined with `c`, plus the final `c` that gives no field, give back the input |
| StringAlgorithms.FieldsWithoutDelimiter | non_std/StringAlgorithms/algorithm.cpp:29-30 | no field contains `c` |
| StringAlgorithms.FieldsByOneChar | non_std/StringAlgorithms/algorithm.cpp:41-48 | splitting by the one-character string `[c]` is splitting by `c` |
| StringAlgorithms.FieldsByJoin | non_std/StringAlgorithms/algorithm.cpp:41-48 | the untrimmed fields joined with the delimiter give back the input, apart from a final delimiter that gives no field |
| StringAlgorithms.FieldsByWithoutDelimiter | non_std/StringAlgorithms/algorithm.cpp:43-44 | the delimiter occurs in no field |
| StringAlgorithms.SplitKeepsEmptyFields | non_std/StringAlgorithms/algorithm.cpp:27-34 | empty input gives no field; adjacent separators give an empty field: `"a,,b"` splits into `a`, `""`, `b` |
| StringAlgorithms.SplitDropsFinalEmptyField | non_std/StringAlgorithms/algorithm.cpp:27-34 | a trailing separator gives no final empty field: `" a , b,"` gives `a`, `b` |
| StringAlgorithms.SplitAndTrim | non_std/StringAlgorithms/algorithm.cpp:24-36 | the loop returns the trimmed fields between occurrences of `c`, in order |
| StringAlgorithms.SplitAndTrimByStr | non_std/StringAlgorithms/algorithm.cpp:38-50 | the loop returns the trimmed fields between occurrences of the delimiter, resuming after the whole delimiter |
| StringAlgorithms.RunEnd | non_std/StringAlgorithms/algorithm.cpp:58-61 | the inner loop stops at the end of the maximal run of digits (or letters) starting at `i` |
| StringAlgorithms.RunsFrom | non_std/StringAlgorithms/algorithm.cpp:55-76 | the runs are empty exactly at the end of the input |
| StringAlgorithms.RunsStep | non_std/StringAlgorithms/algorithm.cpp:55-76 | one outer round emits the maximal run starting at `i` |
| StringAlgorithms.RunsSpell | non_std/StringAlgorithms/algorithm.cpp:55-76 | the runs are non-empty, each all digits or all letters, neighbours alternate kind, and their concatenation is the input |
| StringAlgorithms.TakeRun | non_std/StringAlgorithms/algorithm.cpp:57-61 | the `push_back` loop collects exactly the maximal run and returns where it ends |
| StringAlgorithms.CharAt | non_std/StringAlgorithms/algorithm.cpp:58 | `in[i]`, which reads `'\0'` at `i == size()`; `RunEnd` relies on it to end a run at the end of the string |
| StringAlgorithms.SplitNumbersAndLetters | non_std/StringAlgorithms/algorithm.cpp:52-78 | on an all-alphanumeric input the loop returns the maximal digit and letter runs in order |
| FibonacciHeap.Leaf | non_std/containers/FibonacciHeap.h:28-34 | a new node is a well-formed tree of rank 0 that holds only its value |
| FibonacciHeap.HeadHoldsMaximum | non_std/containers/FibonacciHeap.h:150-154 | in a well-formed root list with the largest root at `head`, `head->val` is stored and no stored value exceeds it |
| FibonacciHeap.RankFits | non_std/containers/FibonacciHeap.h:247 | a well-formed tree of rank `r` holds at least `2^r` values, so `r <= floor(log2 n)` |
| FibonacciHeap.RootRanksBounded | non_std/containers/FibonacciHeap.h:247 | every root's rank is at most `floor(log2 n)`, below `A_size` |
| FibonacciHeap.Link | non_std/containers/FibonacciHeap.h:304-328 | `linkNodes` keeps the parent's value, raises its rank by one, adds one child, and the new child, unmarked and with `top` set, becomes `child` |
| FibonacciHeap.LinkChildren | non_std/containers/FibonacciHeap.h:310-327 | the new child list is the new child plus the old children, holding their values and the child's |
| FibonacciHeap.LinkKeepsWellFormed | non_std/containers/FibonacciHeap.h:304-328 | linking two well-formed roots of equal rank, the larger on top, gives a well-formed tree (rank equals the number of children, heap order, at least `2^rank` nodes) holding exactly the values of both |
| FibonacciHeap.Spliced | non_std/containers/FibonacciHeap.h:171-192 | `insert(node)` puts the node right after `head` and adds exactly that node; it becomes `head` only when its value is strictly greater |
| FibonacciHeap.SplicedValues | non_std/containers/FibonacciHeap.h:171-192 | splicing a tree in adds exactly its values |
| FibonacciHeap.SplicedKeepsRoots | non_std/containers/FibonacciHeap.h:188-191 | splicing a well-formed root in keeps the roots well formed and the largest at `head` |
| FibonacciHeap.SplicedHigherRank | non_std/containers/FibonacciHeap.h:294-301 | splicing in a root of rank above all others keeps the ranks distinct |
| FibonacciHeap.DetachRoot | non_std/containers/FibonacciHeap.h:235-242 | `detachRoot` removes exactly that node from the list |
| FibonacciHeap.DetachRootValues | non_std/containers/FibonacciHeap.h:235-242 | the values left are those of the list without the detached tree |
| FibonacciHeap.Unlinked | non_std/containers/FibonacciHeap.h:202-203 | every child has its `top` cleared and nothing else changed |
| FibonacciHeap.UnlinkedKeeps | non_std/containers/FibonacciHeap.h:202-203 | clearing `top` keeps the values and makes well-formed children well-formed roots |
| FibonacciHeap.PoppedRoots | non_std/containers/FibonacciHeap.h:194-231 | the head's children with `top` cleared, then the other roots; one fewer than children plus roots |
| FibonacciHeap.RemoveHeadKeepsRest | non_std/containers/FibonacciHeap.h:213-231 | those roots hold every value but one occurrence of the head's, are well formed, and are what `detachRoot(oldHead)` leaves |
| FibonacciHeap.SlotValuesUpdate | non_std/containers/FibonacciHeap.h:282 | overwriting a slot of `A` swaps the old tree's values for the new one's |
| FibonacciHeap.CarriedRankFits | non_std/containers/FibonacciHeap.h:279 | a tree whose values are among the heap's `n` has rank below `A_size`, so `A[it->rank]` is in range |
| FibonacciHeap.LinkRound | non_std/containers/FibonacciHeap.h:279-287 | one round of the inner loop empties the slot, links the two trees of equal rank, the larger on top, into a well-formed tree of the next rank still below `A_size`, and loses no value |
| FibonacciHeap.StoreCarried | non_std/containers/FibonacciHeap.h:290 | `A[it->rank] = it` puts the tree into its empty slot and loses no value |
| FibonacciHeap.SlotsHoldRanksUpdate | non_std/containers/FibonacciHeap.h:290 | emptying a slot, or filling slot `k` with a root of rank `k`, keeps every slot holding a root of its own rank |
| FibonacciHeap.GatherTree | non_std/containers/FibonacciHeap.h:294-301 | inserting the tree of slot `j` keeps the roots well formed, the largest at `head`, and the ranks distinct and at most `j` |
| FibonacciHeap.GatheredValues | non_std/containers/FibonacciHeap.h:294-301 | the rebuilt root list holds exactly the values left in `A` |
| FibonacciHeap.GatheredSound | non_std/containers/FibonacciHeap.h:294-301 | the rebuilt root list is well formed, keeps its maximum at `head`, and no two roots share a rank |
| FibonacciHeap.Gathered | non_std/containers/FibonacciHeap.h:294-301 | the root list rebuilt from `A` in index order; `GatheredValues` and `GatheredSound` state it |
| FibonacciHeap.ClearTops | non_std/containers/FibonacciHeap.h:202-203 | the loop clears `top` along the child list until it meets a cleared node, which is once around the list |
| FibonacciHeap.Heap.constructor | non_std/containers/FibonacciHeap.h:110-125 | an empty heap: no roots, `n == 0` |
| FibonacciHeap.Heap.Empty | non_std/containers/FibonacciHeap.h:156-160 | `head == nullptr` exactly when `n == 0` and exactly when no value is stored |
| FibonacciHeap.Heap.Top | non_std/containers/FibonacciHeap.h:150-154 | on a non-empty heap, returns a stored value no other stored value exceeds |
| FibonacciHeap.Heap.Insert | non_std/containers/FibonacciHeap.h:162-169 | `++n`, the value is added, and the new node is spliced in after `head` |
| FibonacciHeap.Heap.InsertRoot | non_std/containers/FibonacciHeap.h:171-192 | the roots become the old roots with the tree spliced in after `head` |
| FibonacciHeap.Heap.MoveHeadsChildrenToTop | non_std/containers/FibonacciHeap.h:194-211 | the head's children, `top` cleared, follow `head` in the root list, before the other roots |
| FibonacciHeap.Heap.Pop | non_std/containers/FibonacciHeap.h:213-233 | `--n`; exactly one occurrence of the top value is removed; the heap stays valid with distinct root ranks |
| FibonacciHeap.Heap.DetachHead | non_std/containers/FibonacciHeap.h:217-230 | the roots left once the head is detached, consolidated: the same values, well formed, the maximum at `head`, no two roots of one rank (an empty list when the head was alone) |
| FibonacciHeap.Heap.AllocateA | non_std/containers/FibonacciHeap.h:244-261 | `A_size = floor(log2 n) + 1`, and `A` is kept, or reallocated with `A_size + 5` entries when too short |
| FibonacciHeap.Heap.LinkWithSlot | non_std/containers/FibonacciHeap.h:281-287 | the body of the inner loop, as `LinkRound` states it, on the array `A` |
| FibonacciHeap.Heap.PutInSlot | non_std/containers/FibonacciHeap.h:290 | `A[it->rank] = it`, as `StoreCarried` states it, on the array `A` |
| FibonacciHeap.Heap.DropIn | non_std/containers/FibonacciHeap.h:276-290 | carrying one root into `A` keeps every slot holding a root of its own rank and loses no value |
| FibonacciHeap.Heap.LinkByRank | non_std/containers/FibonacciHeap.h:270-292 | after the first loop the slots of `A` hold roots of their own rank and exactly the values of the old roots |
| FibonacciHeap.Heap.ClearA | non_std/containers/FibonacciHeap.h:267-268 | the first `A_size` slots are null |
| FibonacciHeap.Heap.GatherRoots | non_std/containers/FibonacciHeap.h:294-301 | the root list rebuilt by `insert` from the slots in rank order |
| FibonacciHeap.Heap.Consolidate | non_std/containers/FibonacciHeap.h:263-302 | keeps exactly the values of the roots; afterwards the roots are well formed, the largest is at `head`, and no two share a rank |

## Findings

| source | as written | input that shows it | evidently intended | confidence | as-written member | corrected member |
|---|---|---|---|---|---|---|
| non_std/PoolAlocator.hpp:129 | `moveToAvaiable(in)` sets `fullyAllocatedPools_ = in->next`, which unlinks `in` only when it heads the full list | pool 0 fills, then pool 1 fills (full list `1, 0`); `dealocate` of a slot of pool 0 leaves the full list empty and pool 1 on neither list | unlink `in` from wherever it sits in the full list | high, by proof; not executed | PoolAlloc.AsWrittenDropsNewestFullPool | PoolAlloc.RelinkToAvailablePermutes |

## Left out

- Node payloads, raw memory, `poolParrent_` pointers and the allocator's destructor are not modelled. A pointer is the `Slot` it denotes, and `dealocate`'s pointer arithmetic is the slot's index.
- The `prev` pointers of `PoolAllocator`'s pool lists are not modelled. They are written but never read.
- `PoolAlloc.PoolAllocator.Allocate` looks only at the head available pool. The source's outer loop over the available list never gets past it, because the head pool is never full.
- `PoolAlloc.PoolAllocator.MoveToAvailable` and `Dealocate` use the corrected relinking. The relinking as written is `RelinkToAvailableAsWritten` (see Findings).
- `Bits.FindFirstSet` follows the contract in the comment of `findFirstSet`. The example in that comment, the compiler intrinsics, and the `return 0` fallback for unsupported compilers are not modelled.
- 64-bit words are sequences of 64 booleans. `Bits.Flip` is `w ^ (1ull << b)`.
- The bucket mask `key & (2^W - 1)` is written `key % 2^W`. This is the same value for unsigned keys.
- `ChainedHashMap.HashMap.constructor`: keys are unbounded naturals, and `W` is at most 30 because the source computes `1 << W` in `int`.
- `RehashingTable.Table.constructor` requires a width of at most 30, because the source computes `1 << TBucketBitWidth` and `hashMask` in `int`.
- The chained `HashMap`'s move constructor, move assignment and `Node` destructor are not modelled.
- `AgedHashTable.AgedTable.Get`, `Index` and `Store` require `age_ + 1` to stay below `2^64 - 1`. The 64-bit wrap-around of `age_` is not modelled.
- `AgedHashTable.AgedTable.Index` requires that some probed bucket is not locked. When all five are locked, the source dereferences a null `oldestElem`.
- The table size is a parameter `2^bits`. The source fixes `bits` at 21.
- `AgedTableTests.FiveKeysCreatedAndRead` replays the test on eight slots (`bits = 3`), not `2^21`. It runs `testGivenKey` for keys 1 to 7, not 1 to 999, so that keys 1 to 5 hold the five probed buckets with ages 2 to 10. In the source those buckets hold keys 31 to 35 with ages 62 to 70. The colliding keys 9, 17, 25, 33, 41 and 49 stand for `31 + k * 2^60`. The ages differ, but the order of the ages and the evictions are the same. `field3` is the whole value, and the float fields are not modelled.
- `store` of the aged table is modelled as the source evidently means it: `.value` at line 143, which would not compile, is read as `value_`. Its largest-age comparison is kept as written.
- The copy semantics of `PersistPointer` are not modelled. Locking and unlocking are the explicit `AcquirePointer` and `ReleasePointer`.
- The `LOG` macro and the logger are not modelled.
- The aged table's copy constructor and copy assignment are not modelled.
- `Hash` and `Rehash` are uninterpreted function parameters.
- Values stored by `HashTableWithRehashing::store` are immutable. The repeated `std::move(val)` at line 83 is not modelled.
- `StringAlgorithms.SplitAndTrimByStr` requires a non-empty delimiter. With an empty one, the source never advances.
- `StringAlgorithms.SplitNumbersAndLetters` requires every character to be an ASCII digit or letter. Any other character stops both inner loops without advancing, so the source does not terminate.
- `std::isdigit` and `std::isalpha` are taken in the ASCII "C" locale.
- Heap nodes are `Tree` values, so pointer aliasing and in-place relinking are not modelled.
  - A node's `prev` pointer, and the `prev`/`next` self-links made during consolidation, are implied by the list order.
  - The private `insert(node)` is `InsertRoot`. The empty-list case of `pop` and `detachRoot` of the old head are `DetachHead`.
- `Heap<T>` is modelled for `T = int`.
- `Finger`, `relax`, `cut` and `cascading` are not modelled, because `Finger::relax` throws before reaching them. The destructor and `cleanChildList` are not modelled either.
- `FibonacciHeap.Heap.AllocateA` computes `floor(log2 n) + 1` in integers, in place of the floating-point `log(n) / log(2)`.
  - The first call's `A == nullptr` case is a zero-length `A`.
  - `n` is read before `pop` decrements it, as in the source.
- Distinct root ranks are not part of the heap invariant, because `insert` does not keep them. `Pop` ensures them.
