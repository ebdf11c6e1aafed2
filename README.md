# UnifiedSetWithHashingStrategy, modelled in Dafny

This project models the hash-set engine of GS Collections'
`UnifiedSetWithHashingStrategy`. The set keeps its elements in a power-of-two
table of slots, and a slot is in one of three states:
- null;
- one element;
- a `ChainedBucket`: a node of four fields `zero`, `one`, `two`, `three`, where
  `three` may hold a further bucket.

A user-supplied hashing strategy decides two things: which slot an element
belongs in (`computeHashCode`, mixed by `index`) and which elements are equal
(`equals`). A `null` element is stored as a private sentinel object.

Layout of the model:
- `keys.dfy` holds the element model:
  - `Key` is `NullKey` or `Val(e)`;
  - `Ref` is null, the sentinel, or an object;
  - the sentinel helpers;
  - the strategy laws (`StrategyOk`);
  - the sequence view of membership (`InSeq`, `Lookup`, `Position`, `Distinct`).
- `sizing.dfy` holds `init`, `computeMaxSize`, `index`, the `batchForEach`
  section arithmetic and Java's truncating division.
- `buckets.dfy` models `ChainedBucket` as a value. `Flatten` gives a chain's
  keys in iteration order. Every chain operation is specified by what it does
  to that sequence.
- `table.dfy` holds two things:
  - `Flat`, the iteration order of a whole table;
  - `Placed`, the placement invariant: every key sits in the slot its hash
    selects, and chains are packed with no holes.
- `walk.dfy` says where the iterator stands in the iteration order.
- `hashset.dfy` is the class `UnifiedSetWithHashingStrategy`, with fields
  `table` (an array of slots), `occupied` and `maxSize`. `Valid()` is its
  invariant:
  - placement holds;
  - no two stored keys are strategy-equal;
  - `occupied` counts the keys;
  - `maxSize` is the threshold of the current capacity;
  - `occupied <= maxSize`.
- `iterator.dfy` is the class `PositionalIterator`.
- `findings.dfy` holds the two discrepancies listed under Findings.

Each mutating method states its new state through the ghost sequence
`Elements() == Flat(table[..])`. It does so in three ways: the multiset of
elements, membership under the strategy, and `occupied`.

## Model

Every source path below is relative to
`collections/src/main/java/com/gs/collections/impl/set/strategy/mutable/`, and
the table repeats it in full.

| member | source | states |
|---|---|---|
| Keys.NonSentinel | collections/src/main/java/com/gs/collections/impl/set/strategy/mutable/UnifiedSetWithHashingStrategy.java:2527-2530 | nonSentinel never hands out the sentinel; the result is null exactly for the null key, and any other element comes back as itself |
| Keys.Raw | collections/src/main/java/com/gs/collections/impl/set/strategy/mutable/UnifiedSetWithHashingStrategy.java:2532-2539 | toSentinelIfNull never stores a null; the stored reference is the sentinel exactly for the null key |
| Keys.Match | collections/src/main/java/com/gs/collections/impl/set/strategy/mutable/UnifiedSetWithHashingStrategy.java:2541-2544 | nonNullTableObjectEquals: a stored element is compared with the key through the strategy's equals, the sentinel only with null (no contract of its own; its properties are the lemmas beside it) |
| Keys.MatchNull | collections/src/main/java/com/gs/collections/impl/set/strategy/mutable/UnifiedSetWithHashingStrategy.java:2541-2544 | nonNullTableObjectEquals: the stored sentinel matches exactly a null key, and a null key matches exactly the sentinel |
| Keys.MatchSymmetric | collections/src/main/java/com/gs/collections/impl/set/strategy/mutable/UnifiedSetWithHashingStrategy.java:2541-2544 | under a lawful strategy, nonNullTableObjectEquals (with the sentinel matching only the null key) is symmetric |
| Keys.MatchSameHash | collections/src/main/java/com/gs/collections/impl/set/strategy/mutable/UnifiedSetWithHashingStrategy.java:308-317 | keys the strategy calls equal have equal hash codes, so they select the same slot |
| Keys.MembersAfterInsert | collections/src/main/java/com/gs/collections/impl/set/strategy/mutable/UnifiedSetWithHashingStrategy.java:334-352 | once a key is added to the multiset of elements, the members are the old members plus everything strategy-equal to it |
| Keys.MembersAfterRemove | collections/src/main/java/com/gs/collections/impl/set/strategy/mutable/UnifiedSetWithHashingStrategy.java:1356-1376 | taking one stored element out of a duplicate-free set loses exactly the keys equal to it |
| Keys.RemovedMembers | collections/src/main/java/com/gs/collections/impl/set/strategy/mutable/UnifiedSetWithHashingStrategy.java:1356-1376 | removing the stored match of `key`, or nothing when there is none, leaves exactly the old members not equal to `key` |
| Keys.DistinctAppend | collections/src/main/java/com/gs/collections/impl/set/strategy/mutable/UnifiedSetWithHashingStrategy.java:354-425 | appending a key that is not yet a member keeps the elements pairwise unequal |
| Keys.DropMultiset | collections/src/main/java/com/gs/collections/impl/set/strategy/mutable/UnifiedSetWithHashingStrategy.java:2049-2075 | the removal rule (the last element of the chain moves into the freed place) loses exactly the removed element |
| Keys.RemovedAtPlaceMultiset | collections/src/main/java/com/gs/collections/impl/set/strategy/mutable/UnifiedSetWithHashingStrategy.java:1847-1872 | an iterator removal at place c of the iteration order loses exactly the element that stood there |
| Keys.RetainStep | collections/src/main/java/com/gs/collections/impl/set/strategy/mutable/UnifiedSetWithHashingStrategy.java:1713-1729 | one addIfFound step extends "the members are those of the set that equal one of the keys seen so far" by one key |
| Keys.FewerMembers | collections/src/main/java/com/gs/collections/impl/set/strategy/mutable/UnifiedSetWithHashingStrategy.java:1721 | counting: a duplicate-free sequence whose every key is a member of another duplicate-free sequence, which has a member it lacks, is strictly shorter |
| Keys.RetainedAll | collections/src/main/java/com/gs/collections/impl/set/strategy/mutable/UnifiedSetWithHashingStrategy.java:1721-1727 | when the retained copy is at least as large as the set, every member was equal to some key, so reporting no change is right |
| Sizing.IndexFor | collections/src/main/java/com/gs/collections/impl/set/strategy/mutable/UnifiedSetWithHashingStrategy.java:308-317 | the mixed hash masked to a power-of-two table is a valid slot index |
| Sizing.Spread | collections/src/main/java/com/gs/collections/impl/set/strategy/mutable/UnifiedSetWithHashingStrategy.java:313-315 | index's avalanche mix of the 32-bit hash code (no contract of its own; SpreadInjective is its property) |
| Sizing.SpreadInjective | collections/src/main/java/com/gs/collections/impl/set/strategy/mutable/UnifiedSetWithHashingStrategy.java:313-315 | the two xor-shift rounds of index lose no information: distinct hash codes spread to distinct values |
| Sizing.MaxSizeFor | collections/src/main/java/com/gs/collections/impl/set/strategy/mutable/UnifiedSetWithHashingStrategy.java:302-306 | the threshold always leaves a free slot and is three quarters of the capacity from capacity 4 up |
| Sizing.MaxSizeGrows | collections/src/main/java/com/gs/collections/impl/set/strategy/mutable/UnifiedSetWithHashingStrategy.java:427-430 | doubling the capacity raises the threshold by at least one, so the insertion that triggered rehash fits |
| Sizing.MaxSizeMono | collections/src/main/java/com/gs/collections/impl/set/strategy/mutable/UnifiedSetWithHashingStrategy.java:302-306 | a larger capacity never has a smaller threshold |
| Sizing.InitCapacity | collections/src/main/java/com/gs/collections/impl/set/strategy/mutable/UnifiedSetWithHashingStrategy.java:278-287 | init's doubling loop returns the smallest power of two at least the requested capacity |
| Sizing.RequiredCapacity | collections/src/main/java/com/gs/collections/impl/set/strategy/mutable/UnifiedSetWithHashingStrategy.java:178-187 | fastCeil(initialCapacity / loadFactor) at load factor 3/4: the least capacity whose three quarters reach initialCapacity |
| Sizing.JavaDiv | collections/src/main/java/com/gs/collections/impl/set/strategy/mutable/UnifiedSetWithHashingStrategy.java:535-538 | Java's int division rounds toward zero: the floor quotient for a positive divisor, and for a negative one q <= 0 with 0 <= a - q * b < -b |
| Sizing.SectionsContiguous | collections/src/main/java/com/gs/collections/impl/set/strategy/mutable/UnifiedSetWithHashingStrategy.java:540-561 | batchForEach's sections start at 0, end at the table length and each begins where the previous ends |
| Sizing.SectionStart | collections/src/main/java/com/gs/collections/impl/set/strategy/mutable/UnifiedSetWithHashingStrategy.java:543-544 | a section of the truncated size table.length / sectionCount starting at sectionSize * sectionIndex lies within the table |
| Sizing.SectionEnd | collections/src/main/java/com/gs/collections/impl/set/strategy/mutable/UnifiedSetWithHashingStrategy.java:545 | a section ends within the table and not before its start; the last section runs to the table's end |
| Sizing.CapacityRoom | collections/src/main/java/com/gs/collections/impl/set/strategy/mutable/UnifiedSetWithHashingStrategy.java:1713-1729 | a set presized for n elements within the largest table can take n elements |
| Buckets.PackedShape | collections/src/main/java/com/gs/collections/impl/set/strategy/mutable/UnifiedSetWithHashingStrategy.java:1932-1947 | a chain has no holes: its iteration order is zero, one, two, then three or the chain it links to, stopping at the first null |
| Buckets.PackedLength | collections/src/main/java/com/gs/collections/impl/set/strategy/mutable/UnifiedSetWithHashingStrategy.java:1932-1947 | a chain holds at least one element, and at least four when it links to another bucket |
| Buckets.ChainLookup | collections/src/main/java/com/gs/collections/impl/set/strategy/mutable/UnifiedSetWithHashingStrategy.java:497-533 | the chain scan of contains and get returns the first element of the chain equal to the key, or none |
| Buckets.ChainKeys | collections/src/main/java/com/gs/collections/impl/set/strategy/mutable/UnifiedSetWithHashingStrategy.java:585-613 | chainedForEach's walk visits exactly the chain's elements, in iteration order |
| Buckets.ChainAdd | collections/src/main/java/com/gs/collections/impl/set/strategy/mutable/UnifiedSetWithHashingStrategy.java:356-417 | chainedAdd's chain walk finds the stored equal element exactly when there is one; otherwise it appends the key at the end of the chain and keeps it packed |
| Buckets.RemoveLastDeep | collections/src/main/java/com/gs/collections/impl/set/strategy/mutable/UnifiedSetWithHashingStrategy.java:2077-2110 | removeLast(oldBucket) detaches the chain's final element, keeps the head fields and leaves the chain packed |
| Buckets.RemoveLast | collections/src/main/java/com/gs/collections/impl/set/strategy/mutable/UnifiedSetWithHashingStrategy.java:2049-2075 | removeLast(cur) drops the final element and returns it, or null when the final element is the one at `cur` |
| Buckets.RemoveField | collections/src/main/java/com/gs/collections/impl/set/strategy/mutable/UnifiedSetWithHashingStrategy.java:1378-1425 | `field = removeLast(j)` removes the element at field j, moving the last element of the chain into its place |
| Buckets.RemoveFromChain | collections/src/main/java/com/gs/collections/impl/set/strategy/mutable/UnifiedSetWithHashingStrategy.java:1378-1425 | removeFromChain removes the first element equal to the key, by the removal rule, and reports it; with no match the chain is unchanged |
| Buckets.RemoveDeepChain | collections/src/main/java/com/gs/collections/impl/set/strategy/mutable/UnifiedSetWithHashingStrategy.java:1427-1480 | removeDeepChain does the same for the part of the chain after a full node |
| Buckets.At | collections/src/main/java/com/gs/collections/impl/set/strategy/mutable/UnifiedSetWithHashingStrategy.java:2014-2047 | get(i) is element i of the iteration order, or null one place past the end |
| Buckets.RemoveAt | collections/src/main/java/com/gs/collections/impl/set/strategy/mutable/UnifiedSetWithHashingStrategy.java:1949-1980 | remove(i), at any index but the last, removes element i by the removal rule and keeps the chain packed (corrected for all i) |
| Buckets.RemoveTail | collections/src/main/java/com/gs/collections/impl/set/strategy/mutable/UnifiedSetWithHashingStrategy.java:1951-1954 | removeLongChain(this, i - 3) seen from the whole chain (also the call for i = 3 at lines 1969-1972): the chain loses element i by the removal rule and stays packed (corrected for chain indexes of 7 and more, see Findings) |
| Buckets.RemoveLongChain | collections/src/main/java/com/gs/collections/impl/set/strategy/mutable/UnifiedSetWithHashingStrategy.java:1982-2012 | removeLongChain removes index i of the chain after a node and leaves the node's own fields alone (corrected for all i) |
| Table.ChainedSlot | collections/src/main/java/com/gs/collections/impl/set/strategy/mutable/UnifiedSetWithHashingStrategy.java:354-425 | chainedAdd's new slot value: Found with the stored equal element exactly when the chain has one; otherwise a packed chain holding the old keys followed by the key |
| Table.LookupSlot | collections/src/main/java/com/gs/collections/impl/set/strategy/mutable/UnifiedSetWithHashingStrategy.java:482-495 | in a placed table, looking up a key in its own slot gives the same answer as looking through the whole set |
| Table.NotElsewhere | collections/src/main/java/com/gs/collections/impl/set/strategy/mutable/UnifiedSetWithHashingStrategy.java:482-495 | no slot other than the key's own index holds an element equal to the key |
| Table.FlatDistinct | collections/src/main/java/com/gs/collections/impl/set/strategy/mutable/UnifiedSetWithHashingStrategy.java:354-425 | a placed table holds no two strategy-equal elements |
| Table.InsertSlot | collections/src/main/java/com/gs/collections/impl/set/strategy/mutable/UnifiedSetWithHashingStrategy.java:334-352 | storing an absent key in its own slot keeps the table placed and grows the elements by that key |
| Table.RemoveSlot | collections/src/main/java/com/gs/collections/impl/set/strategy/mutable/UnifiedSetWithHashingStrategy.java:1356-1376 | removing one element of a slot by the removal rule keeps the table placed and shrinks it by one |
| Table.RemoveSlotMultiset | collections/src/main/java/com/gs/collections/impl/set/strategy/mutable/UnifiedSetWithHashingStrategy.java:1356-1376 | that removal loses exactly the removed element |
| Table.FlatEmpty | collections/src/main/java/com/gs/collections/impl/set/strategy/mutable/UnifiedSetWithHashingStrategy.java:319-332 | a placed table with no elements is all nulls, so clear may return early when occupied is 0 |
| Table.SectionsCover | collections/src/main/java/com/gs/collections/impl/set/strategy/mutable/UnifiedSetWithHashingStrategy.java:540-561 | the batchForEach sections, taken in order, visit exactly the whole iteration order |
| Walks.WalkBound | collections/src/main/java/com/gs/collections/impl/set/strategy/mutable/UnifiedSetWithHashingStrategy.java:1842-1845 | the iterator's count never exceeds the number of elements |
| Walks.WalkChain | collections/src/main/java/com/gs/collections/impl/set/strategy/mutable/UnifiedSetWithHashingStrategy.java:1891-1903 | chain place `chainPosition` of the slot at `position` is element `count` of the iteration order, and the walk moves one place on |
| Walks.WalkRemoveInside | collections/src/main/java/com/gs/collections/impl/set/strategy/mutable/UnifiedSetWithHashingStrategy.java:1874-1879 | removing the chain element just returned keeps the iterator on the element moved into its place |
| Walks.WalkRemoveLast | collections/src/main/java/com/gs/collections/impl/set/strategy/mutable/UnifiedSetWithHashingStrategy.java:1881-1889 | removing the last element of the chain just passed keeps the walk consistent after that slot |
| Walks.RemovedAt | collections/src/main/java/com/gs/collections/impl/set/strategy/mutable/UnifiedSetWithHashingStrategy.java:1847-1872 | dropping place p of slot i's keys is, in the whole iteration order, the removal rule applied at place `|Flat(t[..i])| + p` |
| Walks.NextInChain | collections/src/main/java/com/gs/collections/impl/set/strategy/mutable/UnifiedSetWithHashingStrategy.java:1891-1903 | nextFromChain returns element `count` of the iteration order and moves to the next chain field, or to the next slot when `get` finds that field null |
| Walks.SkipVacant | collections/src/main/java/com/gs/collections/impl/set/strategy/mutable/UnifiedSetWithHashingStrategy.java:1917-1920 | next's scan over null slots stops at a non-null slot, having passed no element |
| UnifiedSets.UnifiedSetWithHashingStrategy.Allocate | collections/src/main/java/com/gs/collections/impl/set/strategy/mutable/UnifiedSetWithHashingStrategy.java:289-306 | allocate makes a fresh all-null table of the given capacity, sets the threshold for it and returns the capacity |
| UnifiedSets.UnifiedSetWithHashingStrategy.constructor | collections/src/main/java/com/gs/collections/impl/set/strategy/mutable/UnifiedSetWithHashingStrategy.java:163-171 | a new set is valid and empty, with a table of 16 slots |
| UnifiedSets.UnifiedSetWithHashingStrategy.WithCapacity | collections/src/main/java/com/gs/collections/impl/set/strategy/mutable/UnifiedSetWithHashingStrategy.java:173-187 | a presized set is valid and empty, with the smallest power-of-two table that holds initialCapacity at load factor 3/4 |
| UnifiedSets.UnifiedSetWithHashingStrategy.NewSet | collections/src/main/java/com/gs/collections/impl/set/strategy/mutable/UnifiedSetWithHashingStrategy.java:227-230 | newSet(strategy, size) fails (IllegalArgumentException) exactly for a negative size, and otherwise gives a fresh valid empty set with that strategy |
| UnifiedSets.UnifiedSetWithHashingStrategy.Emptied | collections/src/main/java/com/gs/collections/impl/set/strategy/mutable/UnifiedSetWithHashingStrategy.java:289-306 | an all-null power-of-two table with its threshold and a zero count is a valid empty set |
| UnifiedSets.UnifiedSetWithHashingStrategy.Add | collections/src/main/java/com/gs/collections/impl/set/strategy/mutable/UnifiedSetWithHashingStrategy.java:334-352 | add returns true exactly when no equal element was stored; afterwards the key is a member; on true the elements gain the key and occupied grows by one, and when occupied was already at maxSize the table is a fresh one of twice the length (otherwise the same table); on false nothing changes |
| UnifiedSets.UnifiedSetWithHashingStrategy.ChainedAdd | collections/src/main/java/com/gs/collections/impl/set/strategy/mutable/UnifiedSetWithHashingStrategy.java:354-425 | the same contract for a slot that holds a chain or a different element, including the doubling of the table when the insertion passes maxSize |
| UnifiedSets.UnifiedSetWithHashingStrategy.Store | collections/src/main/java/com/gs/collections/impl/set/strategy/mutable/UnifiedSetWithHashingStrategy.java:338-346 | writing a slot extended by an absent key, then counting it, adds exactly that key and keeps the set valid; the table doubles into a fresh one exactly when occupied was at maxSize |
| UnifiedSets.UnifiedSetWithHashingStrategy.CountInsertion | collections/src/main/java/com/gs/collections/impl/set/strategy/mutable/UnifiedSetWithHashingStrategy.java:420-423 | `++occupied > maxSize` then rehash: the count grows by one and the elements stay the same; when occupied was at maxSize the table is a fresh one of twice the length, and otherwise it is the same table |
| UnifiedSets.UnifiedSetWithHashingStrategy.GrowthRoom | collections/src/main/java/com/gs/collections/impl/set/strategy/mutable/UnifiedSetWithHashingStrategy.java:420-430 | when the threshold is crossed the table can still double, and the doubled table's threshold holds every element |
| UnifiedSets.UnifiedSetWithHashingStrategy.Rehash | collections/src/main/java/com/gs/collections/impl/set/strategy/mutable/UnifiedSetWithHashingStrategy.java:427-430 | rehash() moves to a fresh table of twice the length with the same multiset of elements and the same count |
| UnifiedSets.UnifiedSetWithHashingStrategy.RehashTo | collections/src/main/java/com/gs/collections/impl/set/strategy/mutable/UnifiedSetWithHashingStrategy.java:432-479 | rehash(newCapacity) re-adds every element into a fresh table of that capacity, keeping the multiset and the count |
| UnifiedSets.UnifiedSetWithHashingStrategy.RehashSlot | collections/src/main/java/com/gs/collections/impl/set/strategy/mutable/UnifiedSetWithHashingStrategy.java:441-477 | one turn of rehash's loop: the new table then holds the old table's elements up to and including that slot |
| UnifiedSets.UnifiedSetWithHashingStrategy.AddRun | collections/src/main/java/com/gs/collections/impl/set/strategy/mutable/UnifiedSetWithHashingStrategy.java:445-472 | re-adding the keys of one chain, in order, adds exactly those keys |
| UnifiedSets.UnifiedSetWithHashingStrategy.ElementsDistinct | collections/src/main/java/com/gs/collections/impl/set/strategy/mutable/UnifiedSetWithHashingStrategy.java:334-352 | a sound set never holds two strategy-equal elements |
| UnifiedSets.UnifiedSetWithHashingStrategy.Contains | collections/src/main/java/com/gs/collections/impl/set/strategy/mutable/UnifiedSetWithHashingStrategy.java:482-495 | contains is true exactly when some stored element is strategy-equal to the key |
| UnifiedSets.UnifiedSetWithHashingStrategy.Get | collections/src/main/java/com/gs/collections/impl/set/strategy/mutable/UnifiedSetWithHashingStrategy.java:2237-2297 | get returns null for a non-member, otherwise the stored equal element: raw when it is alone in its slot (so the sentinel for a stored null), through nonSentinel when in a chain |
| UnifiedSets.UnifiedSetWithHashingStrategy.Put | collections/src/main/java/com/gs/collections/impl/set/strategy/mutable/UnifiedSetWithHashingStrategy.java:2299-2319 | put returns the stored equal element and changes nothing, or stores the key, grows the elements by it and occupied by one, and returns the key; a storing put that passes maxSize leaves a fresh table of twice the length, and otherwise the table stays (corrected for the null key, see Findings) |
| UnifiedSets.UnifiedSetWithHashingStrategy.ChainedPut | collections/src/main/java/com/gs/collections/impl/set/strategy/mutable/UnifiedSetWithHashingStrategy.java:2321-2392 | the same contract for a slot that holds a chain or a different element, with the null key stored as the sentinel and the same doubling past maxSize (corrected) |
| UnifiedSets.UnifiedSetWithHashingStrategy.Delete | collections/src/main/java/com/gs/collections/impl/set/strategy/mutable/UnifiedSetWithHashingStrategy.java:1356-1376 | the removal shared by remove and removeFromPool takes out exactly the stored element equal to the key, if any, and decrements occupied; without one nothing changes |
| UnifiedSets.UnifiedSetWithHashingStrategy.DeleteFromChain | collections/src/main/java/com/gs/collections/impl/set/strategy/mutable/UnifiedSetWithHashingStrategy.java:1378-1480 | the same for a slot holding a chain, a chain of one element becoming a null slot |
| UnifiedSets.UnifiedSetWithHashingStrategy.RemoveFromChainAt | collections/src/main/java/com/gs/collections/impl/set/strategy/mutable/UnifiedSetWithHashingStrategy.java:1874-1879 | chain.remove(p) on the table: the slot's keys lose place p by the removal rule, occupied decreases, no other slot changes (corrected for chain indexes of 7 and more, see Findings) |
| UnifiedSets.UnifiedSetWithHashingStrategy.RemoveLastFromChainAt | collections/src/main/java/com/gs/collections/impl/set/strategy/mutable/UnifiedSetWithHashingStrategy.java:1881-1889 | bucket.removeLast(0) on the table: the slot loses its last key and becomes null when that was its only one |
| UnifiedSets.UnifiedSetWithHashingStrategy.Remove | collections/src/main/java/com/gs/collections/impl/set/strategy/mutable/UnifiedSetWithHashingStrategy.java:1356-1376 | remove returns true exactly when the key was a member; afterwards the members are the old ones minus those equal to the key |
| UnifiedSets.UnifiedSetWithHashingStrategy.RemoveFromPool | collections/src/main/java/com/gs/collections/impl/set/strategy/mutable/UnifiedSetWithHashingStrategy.java:2394-2525 | removeFromPool returns the removed stored element through nonSentinel, or null and no change when there is none |
| UnifiedSets.UnifiedSetWithHashingStrategy.Clear | collections/src/main/java/com/gs/collections/impl/set/strategy/mutable/UnifiedSetWithHashingStrategy.java:319-332 | clear leaves the same table with every slot null and the count at zero |
| UnifiedSets.UnifiedSetWithHashingStrategy.Size | collections/src/main/java/com/gs/collections/impl/set/strategy/mutable/UnifiedSetWithHashingStrategy.java:1482-1485 | size is the number of stored elements |
| UnifiedSets.UnifiedSetWithHashingStrategy.GetBatchCount | collections/src/main/java/com/gs/collections/impl/set/strategy/mutable/UnifiedSetWithHashingStrategy.java:535-538 | getBatchCount fails (division by zero) exactly for batch size 0, is at least 1, and for a batch size up to the table length is the number of whole batches in the table |
| UnifiedSets.UnifiedSetWithHashingStrategy.BatchForEach | collections/src/main/java/com/gs/collections/impl/set/strategy/mutable/UnifiedSetWithHashingStrategy.java:540-561 | batchForEach hands the procedure exactly the elements of its section's slots, through nonSentinel, in iteration order |
| UnifiedSets.UnifiedSetWithHashingStrategy.Each | collections/src/main/java/com/gs/collections/impl/set/strategy/mutable/UnifiedSetWithHashingStrategy.java:569-583 | each hands the procedure every element once, through nonSentinel, in iteration order |
| UnifiedSets.UnifiedSetWithHashingStrategy.VisitSlots | collections/src/main/java/com/gs/collections/impl/set/strategy/mutable/UnifiedSetWithHashingStrategy.java:540-561 | the slot loop visits exactly the elements of the slots in the range |
| UnifiedSets.UnifiedSetWithHashingStrategy.AddKeys | collections/src/main/java/com/gs/collections/impl/set/strategy/mutable/UnifiedSetWithHashingStrategy.java:1279-1290 | adding keys one by one makes the members the old ones joined with the keys, and reports a change exactly when the count grew; keys that are all stored elements change nothing |
| UnifiedSets.UnifiedSetWithHashingStrategy.CopyChain | collections/src/main/java/com/gs/collections/impl/set/strategy/mutable/UnifiedSetWithHashingStrategy.java:1325-1354 | copyChain adds every element of the chain and returns true exactly when the set grew, changing nothing when every chain element is already stored |
| UnifiedSets.UnifiedSetWithHashingStrategy.CopySet | collections/src/main/java/com/gs/collections/impl/set/strategy/mutable/UnifiedSetWithHashingStrategy.java:1306-1323 | copySet makes the members the old ones joined with the other set's, and returns true exactly when the set grew; copying a set into itself (s.addAll(s)) returns false and changes nothing |
| UnifiedSets.UnifiedSetWithHashingStrategy.CopySlot | collections/src/main/java/com/gs/collections/impl/set/strategy/mutable/UnifiedSetWithHashingStrategy.java:1312-1321 | one slot of copySet: its elements are joined in, and true exactly when the set grew, with no change when they are all stored already |
| UnifiedSets.UnifiedSetWithHashingStrategy.RemoveAllIterable | collections/src/main/java/com/gs/collections/impl/set/strategy/mutable/UnifiedSetWithHashingStrategy.java:1623-1631 | removeAllIterable leaves exactly the old members equal to none of the keys, true exactly when the set shrank |
| UnifiedSets.UnifiedSetWithHashingStrategy.AddIfFound | collections/src/main/java/com/gs/collections/impl/set/strategy/mutable/UnifiedSetWithHashingStrategy.java:1633-1651 | addIfFound adds to `other` this set's element equal to the key, when there is one and `other` holds no equal element: `other`'s elements grow by exactly that stored instance; otherwise `other` is unchanged |
| UnifiedSets.UnifiedSetWithHashingStrategy.AddIfFoundFromChain | collections/src/main/java/com/gs/collections/impl/set/strategy/mutable/UnifiedSetWithHashingStrategy.java:1653-1697 | the same for a key whose slot holds a chain: exactly the chain's element equal to the key is added, or nothing |
| UnifiedSets.UnifiedSetWithHashingStrategy.RetainAllFromNonSet | collections/src/main/java/com/gs/collections/impl/set/strategy/mutable/UnifiedSetWithHashingStrategy.java:1713-1729 | retainAllFromNonSet leaves exactly the old members equal to some key, whether or not it reports a change; a change is reported only when the set shrank, and otherwise the set is untouched |
| UnifiedSets.UnifiedSetWithHashingStrategy.CollectRetained | collections/src/main/java/com/gs/collections/impl/set/strategy/mutable/UnifiedSetWithHashingStrategy.java:1717-1720 | the loop of retainAllFromNonSet fills the new set with exactly this set's members that equal some key |
| UnifiedSets.UnifiedSetWithHashingStrategy.Copy | collections/src/main/java/com/gs/collections/impl/set/strategy/mutable/UnifiedSetWithHashingStrategy.java:195-215 | the copy constructor has the other set's count, threshold and a fresh table with the same slots, so under the same strategy it is a valid set with the same elements |
| Iterators.PositionalIterator.constructor | collections/src/main/java/com/gs/collections/impl/set/strategy/mutable/UnifiedSetWithHashingStrategy.java:1830-1833 | iterator() starts before the first element, with nothing returned yet |
| Iterators.PositionalIterator.HasNext | collections/src/main/java/com/gs/collections/impl/set/strategy/mutable/UnifiedSetWithHashingStrategy.java:1842-1845 | hasNext is true exactly when fewer elements than the size have been returned |
| Iterators.PositionalIterator.Next | collections/src/main/java/com/gs/collections/impl/set/strategy/mutable/UnifiedSetWithHashingStrategy.java:1905-1929 | next fails (NoSuchElementException) exactly when the iterator is exhausted; otherwise it returns element `count` of the iteration order, through nonSentinel, and counts it |
| Iterators.PositionalIterator.Advance | collections/src/main/java/com/gs/collections/impl/set/strategy/mutable/UnifiedSetWithHashingStrategy.java:1911-1928 | the body of next after its check: it returns element `count` and moves the walk one element on |
| Iterators.PositionalIterator.NextFromTable | collections/src/main/java/com/gs/collections/impl/set/strategy/mutable/UnifiedSetWithHashingStrategy.java:1913-1928 | from a slot boundary, next skips null slots and returns element `count`, either a lone element or the first of a chain |
| Iterators.PositionalIterator.Remove | collections/src/main/java/com/gs/collections/impl/set/strategy/mutable/UnifiedSetWithHashingStrategy.java:1847-1872 | remove fails (IllegalStateException) exactly when nothing was returned since the last remove; otherwise it removes the element last returned, by the removal rule, decrements both counts and keeps the walk valid (corrected for chain indexes of 7 and more, see Findings) |
| Iterators.PositionalIterator.RemoveSingle | collections/src/main/java/com/gs/collections/impl/set/strategy/mutable/UnifiedSetWithHashingStrategy.java:1862-1871 | removing a lone element nulls its slot and steps the position back onto it |
| Iterators.PositionalIterator.RemoveFromChain | collections/src/main/java/com/gs/collections/impl/set/strategy/mutable/UnifiedSetWithHashingStrategy.java:1874-1879 | removing inside a chain removes the element last returned, and the walk stays on the element moved into its place (corrected for chain indexes of 7 and more, see Findings) |
| Iterators.PositionalIterator.RemoveLastFromChain | collections/src/main/java/com/gs/collections/impl/set/strategy/mutable/UnifiedSetWithHashingStrategy.java:1881-1889 | removing the last element of a chain just passed removes the element last returned |
| Findings.RemoveLongChainAsWritten | collections/src/main/java/com/gs/collections/impl/set/strategy/mutable/UnifiedSetWithHashingStrategy.java:1982-2012 | as written, removeLongChain succeeds exactly for i at most 3, and then agrees with the corrected RemoveLongChain |
| Findings.RemoveAtAsWritten | collections/src/main/java/com/gs/collections/impl/set/strategy/mutable/UnifiedSetWithHashingStrategy.java:1949-1980 | as written, remove(i) succeeds exactly for i below 7, and then agrees with the corrected RemoveAt |
| Findings.IteratorRemoveAtSeven | collections/src/main/java/com/gs/collections/impl/set/strategy/mutable/UnifiedSetWithHashingStrategy.java:1949-2012 | on a nine-element chain, remove(7) throws as written, while the corrected removal yields the chain without element 7 |
| Findings.RawField | collections/src/main/java/com/gs/collections/impl/set/strategy/mutable/UnifiedSetWithHashingStrategy.java:1943-1947 | the two-element ChainedBucket constructor stores its argument as given, so a raw null leaves the field empty |
| Findings.ChainPutAsWritten | collections/src/main/java/com/gs/collections/impl/set/strategy/mutable/UnifiedSetWithHashingStrategy.java:2325-2382 | as written, chainedPut's chain walk agrees with chainedAdd's for every key other than null |
| Findings.ChainedPutSlotAsWritten | collections/src/main/java/com/gs/collections/impl/set/strategy/mutable/UnifiedSetWithHashingStrategy.java:2321-2392 | as written, chainedPut's new slot agrees with the corrected one for every key other than null |
| Findings.PutNullLost | collections/src/main/java/com/gs/collections/impl/set/strategy/mutable/UnifiedSetWithHashingStrategy.java:2385 | as written, put(null) on a slot holding one other element leaves null a non-member; the corrected slot holds both |

## Left out

- The load factor is fixed at the default 3/4. Three things that depend on a float load factor are left out: `fastCeil`, the float constructor argument, and `ensureCapacity`'s presizing (`addAllIterable` adds one element at a time and rehashes on demand).
- Sizing.RequiredCapacity: is the exact ceiling of 4n/3, not Java's `fastCeil(initialCapacity / 0.75f)`. The float quotient rounds n to 24 significant bits, so the two differ for large requests: for n = 25165825 Java asks `init` for 2^25 slots and the model for 2^26.
- Integer width:
  - A hash code is its 32-bit pattern (`Int32` is `bv32`): `index` only shifts, xors and masks it, so its sign plays no part, and the shifts and xors are exact 32-bit operations.
  - The final mask `h & (length - 1)` is written as the unsigned remainder modulo the power-of-two length. That has the same value.
- Largest table: the model stops at the largest power-of-two Java array, 2^30 slots. The set is limited to `MaxElements()` elements, so `Add`, `Put`, `AddKeys`, `CopySet`, `AddIfFound` and `RetainAllFromNonSet` require that many free places. Java does not reach a larger table either: `rehash` from 2^30 slots asks for `table.length << 1`, a negative length, and throws NegativeArraySizeException.
- UnifiedSets.UnifiedSetWithHashingStrategy.Add, ChainedAdd, Put, ChainedPut, AddKeys, CopyChain, CopySet: require the elements to stay within `MaxElements()`, a bound the Java code does not check. For `CopySet` of a set into itself this asks for room for twice its elements, although no element is added.
- UnifiedSets.UnifiedSetWithHashingStrategy.constructor, UnifiedSets.UnifiedSetWithHashingStrategy.WithCapacity: a hashing strategy is a pair of total functions, so a null strategy cannot be represented. The one-argument constructor rejects null with IllegalArgumentException (lines 165-168); the three-argument one (lines 178-187) accepts it unchecked, and the first operation that hashes an element then throws NullPointerException. Neither behaviour is modelled.
- UnifiedSets.UnifiedSetWithHashingStrategy.RetainAllFromNonSet: requires the presized table for the keys to fit in the largest table, and states the members afterwards rather than the order of the new table.
- UnifiedSets.UnifiedSetWithHashingStrategy.AddKeys, CopySet, CopyChain: state the members afterwards (membership under the strategy, the `Joins` relation) rather than the exact multiset of the table.
- UnifiedSets.UnifiedSetWithHashingStrategy.CopySlot: states, like CopySet, the members afterwards (`Joins`) and whether the set grew, not the exact multiset of stored instances.
- Sizing.InitCapacity, UnifiedSets.UnifiedSetWithHashingStrategy.WithCapacity, UnifiedSets.UnifiedSetWithHashingStrategy.NewSet: require the capacity asked of `init` to be at most 2^30. Above that, `init`'s `capacity <<= 1` loop (lines 281-284) overflows to Integer.MIN_VALUE and then to 0 and never ends, for example for `newSet(strategy, 900000000)`. A loop that never ends has no result to model.
- Keys.Match: assumes that the strategy's `equals` never equates an element with null and never throws, and that `computeHashCode(null)` returns a value. The Java code hands null to both (lines 313 and 2541-2544); with a strategy that breaks this, the model does not apply. The identity test `cur == key` of `nonNullTableObjectEquals` is covered by the strategy's reflexivity.
- UnifiedSets.UnifiedSetWithHashingStrategy.Copy: takes the strategy as a separate argument, as the Java constructor does. It promises a valid set only when that strategy is the other set's.
- ChainedBucket nodes are values. Each chain belongs to exactly one slot, so a change to a chain is modelled as replacing the slot's value. Aliasing of buckets is not modelled. `ChainedBucket.copy` is therefore the identity on values, and the copy constructor copies the slots.
- `removeFromChainForPool` and `removeDeepChainForPool` repeat the code of `removeFromChain` and `removeDeepChain`; only the return value differs. The model uses one removal, `Delete`, for both `remove` and `removeFromPool`.
- The procedures of `each` and `batchForEach` are not called. The methods return the sequence of references the procedure would receive, in order.
- `NULL_KEY`'s own `equals` and `hashCode` (which throw) are not modelled. The sentinel is never handed to the strategy.
- Arbitrary iterables are modelled as sequences of keys.
- The following are not part of this model:
  - `retainAllFromSet`;
  - `equals` / `hashCode` of the set;
  - `toArray`;
  - `writeExternal` / `readExternal`;
  - the parallel batch classes;
  - the functional-style and set-algebra methods (`select`, `collect`, `union`, …);
  - `getFirst` / `getLast`;
  - the `forEachWith` / `forEachWithIndex` variants.
- Iterators.PositionalIterator.Advance, NextFromTable: return the next position of the walk to the caller; the Java code writes it to the fields directly. The outcome is the same.
- Concurrent modification during iteration is not modelled. The iterator requires the set to be valid and to be changed only through this iterator.

## Findings

| source | as written | input that shows it | evidently intended | confidence | as-written member | corrected member |
|---|---|---|---|---|---|---|
| collections/src/main/java/com/gs/collections/impl/set/strategy/mutable/UnifiedSetWithHashingStrategy.java:1949-2012 | `remove(i)` hands `i - 3` to `removeLongChain`, which descends one node only from index 3 and throws `AssertionError` for any larger index; the iterator's `remove` has already run `count--` and `occupied--` (lines 1853-1854) when it throws, so `occupied` is left one below the number of stored elements | nine strategy-colliding elements in one slot; the iterator calls `next` eight times, then `remove`, which asks for `remove(7)` | descend one node per three indexes, so every chain index can be removed | not executed | Findings.RemoveAtAsWritten, Findings.IteratorRemoveAtSeven | Buckets.RemoveAt |
| collections/src/main/java/com/gs/collections/impl/set/strategy/mutable/UnifiedSetWithHashingStrategy.java:2376,2385 | when `chainedPut` splits a slot or a final `three` field, it builds the new `ChainedBucket` with the raw `key`, unlike `chainedAdd` (lines 409 and 418), which stores `toSentinelIfNull(key)` | `put(null)` when `index(null)` holds one other element: `occupied` grows and `put` returns null as if stored, but null is not a member | store the sentinel for a null key, as `chainedAdd` does | not executed | Findings.ChainedPutSlotAsWritten, Findings.PutNullLost | Table.ChainedSlot |
