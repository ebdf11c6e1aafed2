/**
 * The mutable hash set UnifiedSetWithHashingStrategy: an open table of
 * slots, each empty, holding one element, or holding a chain of
 * four-field buckets, with a pluggable hashing strategy deciding which
 * elements are equal.
 */
module UnifiedSets {
  import opened Keys
  import opened Sizing
  import opened Buckets
  import opened Table

  class UnifiedSetWithHashingStrategy<E(!new)> {
    /** The hashing strategy: computeHashCode and equals. */
    const hash: Key<E> -> Int32
    const eq: (E, E) -> bool

    var table: array<Slot<E>>
    var occupied: nat
    var maxSize: nat

    /** The stored keys in table order, chains flattened: the iteration order. */
    ghost function Elements(): seq<Key<E>>
      reads this, table
    {
      Flat(table[..])
    }

    /** The representation invariant, except for the occupancy bound. */
    ghost predicate Sound()
      reads this, table
    {
      && StrategyOk(hash, eq)
      && table.Length <= MaxCapacity
      && Placed(hash, eq, table[..])
      && table.Length >= 1
      && maxSize == MaxSizeFor(table.Length)
      && occupied == |Elements()|
    }

    /** The invariant between operations: `occupied` never exceeds `maxSize`. */
    ghost predicate Valid()
      reads this, table
    {
      Sound() && occupied <= maxSize
    }

    /** allocate: a fresh all-null table of `capacity` slots and its threshold. */
    method Allocate(capacity: nat) returns (r: nat)
      requires IsPow2(capacity)
      modifies this
      ensures fresh(table) && table.Length == capacity
      ensures forall i :: 0 <= i < capacity ==> table[i] == Vacant
      ensures maxSize == MaxSizeFor(capacity) && r == capacity
      ensures occupied == old(occupied)
    {
      Pow2Positive(capacity);
      table := new Slot<E>[capacity](_ => Vacant);
      maxSize := MaxSizeFor(capacity);
      r := capacity;
    }

    /** The constructor taking only a strategy: a table of DEFAULT_INITIAL_CAPACITY << 1 slots. */
    constructor (hash: Key<E> -> Int32, eq: (E, E) -> bool)
      requires StrategyOk(hash, eq)
      ensures this.hash == hash && this.eq == eq && fresh(table)
      ensures Valid() && Elements() == []
      ensures table.Length == DefaultCapacity
    {
      this.hash := hash;
      this.eq := eq;
      table := new Slot<E>[0];
      occupied := 0;
      maxSize := 0;
      new;
      DefaultCapacityIsPow2();
      var _ := Allocate(DefaultCapacity);
      Emptied();
    }

    /**
     * The constructor with an initial capacity, at the default load factor:
     * init(fastCeil(initialCapacity / loadFactor)).
     */
    constructor WithCapacity(hash: Key<E> -> Int32, eq: (E, E) -> bool, initialCapacity: nat)
      requires StrategyOk(hash, eq)
      requires RequiredCapacity(initialCapacity) <= MaxCapacity
      ensures this.hash == hash && this.eq == eq && fresh(table)
      ensures Valid() && Elements() == []
      ensures IsPow2(table.Length) && table.Length >= RequiredCapacity(initialCapacity)
      ensures table.Length == 1 || table.Length / 2 < RequiredCapacity(initialCapacity)
    {
      this.hash := hash;
      this.eq := eq;
      table := new Slot<E>[0];
      occupied := 0;
      maxSize := 0;
      new;
      var capacity := InitCapacity(RequiredCapacity(initialCapacity));
      var _ := Allocate(capacity);
      Emptied();
    }

    /** The facts about a freshly allocated, empty table. */
    lemma Emptied()
      requires StrategyOk(hash, eq) && IsPow2(table.Length) && table.Length <= MaxCapacity
      requires maxSize == MaxSizeFor(table.Length) && occupied == 0
      requires forall i :: 0 <= i < table.Length ==> table[i] == Vacant
      ensures Valid() && Elements() == []
    {
      PlacedVacant(hash, eq, table[..]);
      FlatVacant(table[..]);
    }

    /**
     * add: true iff no stored element was strategy-equal to `key`; then the
     * key is stored and `occupied` grows by one, rehashing when it passes
     * `maxSize`.  Otherwise nothing changes.
     */
    method Add(key: Key<E>) returns (added: bool)
      requires Valid() && |Elements()| < MaxElements()
      modifies this, table
      decreases if occupied < maxSize then 0 else 1, 5
      ensures Valid()
      ensures added <==> !InSeq(eq, old(Elements()), key)
      ensures InSeq(eq, Elements(), key)
      ensures added ==> multiset(Elements()) == multiset(old(Elements())) + multiset{key}
      ensures added ==> occupied == old(occupied) + 1
      ensures !added ==> unchanged(this) && unchanged(table)
      ensures old(occupied) < old(maxSize) ==> table == old(table)
      ensures table == old(table) || fresh(table)
      ensures added && old(occupied) == old(maxSize) ==> fresh(table) && table.Length == 2 * old(table.Length)
    {
      var index := IndexFor(hash(key), table.Length);
      var cur := table[index];
      LookupSlot(hash, eq, table[..], key);
      if cur.Vacant? {
        Store(index, Single(key), key);
        return true;
      }
      if cur.Bucket? || !Match(eq, cur.k, key) {
        added := ChainedAdd(key, index);
        return;
      }
      return false;
    }

    /**
     * chainedAdd: `key` goes at the end of the chain in slot `index`, or
     * turns the single element there into a two-element chain.
     */
    method ChainedAdd(key: Key<E>, index: nat) returns (added: bool)
      requires Valid() && |Elements()| < MaxElements()
      requires index == IndexFor(hash(key), table.Length)
      requires table[index].Bucket? || (table[index].Single? && !Match(eq, table[index].k, key))
      modifies this, table
      decreases if occupied < maxSize then 0 else 1, 4
      ensures Valid()
      ensures added <==> !InSeq(eq, old(Elements()), key)
      ensures InSeq(eq, Elements(), key)
      ensures added ==> multiset(Elements()) == multiset(old(Elements())) + multiset{key}
      ensures added ==> occupied == old(occupied) + 1
      ensures !added ==> unchanged(this) && unchanged(table)
      ensures old(occupied) < old(maxSize) ==> table == old(table)
      ensures table == old(table) || fresh(table)
      ensures added && old(occupied) == old(maxSize) ==> fresh(table) && table.Length == 2 * old(table.Length)
    {
      LookupSlot(hash, eq, table[..], key);
      match ChainedSlot(eq, table[index], key)
      case Found(_) =>
        return false;
      case Extended(slot) =>
        Store(index, slot, key);
        return true;
    }

    /**
     * The common tail of add and chainedAdd: `table[index] = slot`, where
     * the slot holds the keys that were there and `key`, then
     * `if (++occupied > maxSize) rehash()`.
     */
    method Store(index: nat, slot: Slot<E>, key: Key<E>)
      requires Valid() && |Elements()| < MaxElements()
      requires index < table.Length && index == IndexFor(hash(key), table.Length)
      requires !InSeq(eq, SlotKeys(table[index]), key)
      requires SlotKeys(slot) == SlotKeys(table[index]) + [key]
      requires slot.Bucket? ==> Packed(slot.head)
      modifies this, table
      decreases if occupied < maxSize then 0 else 1, 3
      ensures Valid() && occupied == old(occupied) + 1
      ensures multiset(Elements()) == multiset(old(Elements())) + multiset{key}
      ensures InSeq(eq, Elements(), key)
      ensures old(occupied) < old(maxSize) ==> table == old(table)
      ensures table == old(table) || fresh(table)
      ensures old(occupied) == old(maxSize) ==> fresh(table) && table.Length == 2 * old(table.Length)
    {
      ghost var t := table[..];
      table[index] := slot;
      Inserted(t, index, slot, key);
      CountInsertion();
      assert key in multiset(Elements());
      InSeqSelf(hash, eq, Elements(), key);
    }

    /** The state after `key` has been appended to the keys of slot `index` of the table `t`. */
    lemma Inserted(t: seq<Slot<E>>, index: nat, slot: Slot<E>, key: Key<E>)
      requires StrategyOk(hash, eq) && Placed(hash, eq, t)
      requires 1 <= table.Length <= MaxCapacity && maxSize == MaxSizeFor(table.Length)
      requires index < |t| && index == IndexFor(hash(key), |t|)
      requires !InSeq(eq, SlotKeys(t[index]), key)
      requires SlotKeys(slot) == SlotKeys(t[index]) + [key]
      requires slot.Bucket? ==> Packed(slot.head)
      requires table[..] == t[index := slot]
      requires occupied == |Flat(t)|
      ensures Placed(hash, eq, table[..]) && |Elements()| == occupied + 1
      ensures multiset(Elements()) == multiset(Flat(t)) + multiset{key}
    {
      InsertSlot(hash, eq, t, index, slot, key);
    }

    /** `if (++occupied > maxSize) rehash()`, after a key has been stored. */
    method CountInsertion()
      requires StrategyOk(hash, eq) && Placed(hash, eq, table[..])
      requires table.Length <= MaxCapacity && table.Length >= 1 && maxSize == MaxSizeFor(table.Length)
      requires occupied <= maxSize && |Elements()| == occupied + 1 && |Elements()| <= MaxElements()
      modifies this
      decreases if occupied < maxSize then 0 else 1, 2
      ensures Valid() && occupied == old(occupied) + 1
      ensures multiset(Elements()) == multiset(old(Elements()))
      ensures old(occupied) < old(maxSize) ==> table == old(table)
      ensures table == old(table) || fresh(table)
      ensures old(occupied) == old(maxSize) ==> fresh(table) && table.Length == 2 * old(table.Length)
    {
      occupied := occupied + 1;
      if occupied > maxSize {
        GrowthRoom();
        Rehash();
      }
    }

    /** A table that has just gone one past its threshold can double. */
    lemma GrowthRoom()
      requires Sound() && occupied == maxSize + 1 && occupied <= MaxElements()
      ensures table.Length < MaxCapacity
      ensures |Elements()| <= MaxSizeFor(2 * table.Length)
    {
      MaxSizeGrows(table.Length);
    }

    /** rehash(): rehash into a table twice as long. */
    method Rehash()
      requires Sound() && table.Length < MaxCapacity
      requires |Elements()| <= MaxSizeFor(2 * table.Length)
      modifies this
      decreases 1, 1
      ensures Valid() && fresh(table)
      ensures table.Length == 2 * old(table.Length)
      ensures multiset(Elements()) == multiset(old(Elements()))
      ensures occupied == old(occupied)
    {
      MaxCapacityIsPow2();
      Pow2Double(table.Length, MaxCapacity);
      Pow2Twice(table.Length);
      RehashTo(2 * table.Length);
    }

    /**
     * rehash(newCapacity): allocate the new table and add every stored
     * element again, slot by slot and along each chain.
     */
    method RehashTo(newCapacity: nat)
      requires Sound() && IsPow2(newCapacity) && newCapacity <= MaxCapacity
      requires |Elements()| <= MaxSizeFor(newCapacity)
      modifies this
      decreases 1, 0
      ensures Valid() && fresh(table) && table.Length == newCapacity
      ensures multiset(Elements()) == multiset(old(Elements()))
      ensures occupied == old(occupied)
    {
      var oldTable := table;
      ghost var snap := table[..];
      var _ := Allocate(newCapacity);
      occupied := 0;
      Emptied();
      MaxSizeMono(newCapacity, MaxCapacity);
      var newTable := table;
      var i := 0;
      while i < oldTable.Length
        invariant i <= oldTable.Length == |snap|
        invariant forall k :: 0 <= k < |snap| ==> oldTable[k] == snap[k]
        invariant table == newTable && table.Length == newCapacity
        invariant Valid()
        invariant multiset(Elements()) == multiset(Flat(snap[..i]))
      {
        RehashSlot(snap, i, oldTable[i]);
        i := i + 1;
      }
      FlatAll(snap);
      assert |Elements()| == |Flat(snap)| by {
        assert |multiset(Elements())| == |multiset(Flat(snap))|;
      }
    }

    /** The body of rehash's loop: the keys of old slot `i`, a chain walked in order or a single element, are added again. */
    method RehashSlot(ghost snap: seq<Slot<E>>, i: nat, cur: Slot<E>)
      requires Valid() && Placed(hash, eq, snap) && i < |snap| && cur == snap[i]
      requires |Flat(snap)| <= maxSize
      requires multiset(Elements()) == multiset(Flat(snap[..i]))
      modifies this, table
      decreases 0, 8
      ensures Valid() && table == old(table) && table.Length == old(table.Length)
      ensures multiset(Elements()) == multiset(Flat(snap[..i + 1]))
    {
      RehashRoom(snap, i, maxSize);
      var ks := [];
      if cur.Bucket? {
        ks := ChainKeys(cur.head);
      } else if cur.Single? {
        ks := [cur.k];
      }
      AddRun(Flat(snap[..i]), ks);
    }

    /**
     * The re-insertions of rehash: add `ks`, the keys of one old slot, in
     * order, to a table that holds `done` and has room for both.
     */
    method AddRun(ghost done: seq<Key<E>>, ks: seq<Key<E>>)
      requires Valid() && Distinct(eq, done + ks) && |done + ks| <= maxSize
      requires multiset(Elements()) == multiset(done)
      modifies this, table
      decreases 0, 7
      ensures Valid() && table == old(table) && table.Length == old(table.Length)
      ensures multiset(Elements()) == multiset(done + ks)
    {
      var j := 0;
      ghost var s := done;
      assert done + ks[..0] == done;
      while j < |ks|
        invariant j <= |ks| && table == old(table) && table.Length == old(table.Length)
        invariant Valid() && maxSize == old(maxSize)
        invariant s == done + ks[..j] && multiset(Elements()) == multiset(s)
      {
        RunStep(eq, done, ks, j);
        AddNext(s, ks[j]);
        s, j := s + [ks[j]], j + 1;
      }
      assert ks[..j] == ks;
    }

    /** One re-insertion of rehash: `key` joins a table that holds `s`, with room to spare. */
    method AddNext(ghost s: seq<Key<E>>, key: Key<E>)
      requires Valid() && Distinct(eq, s + [key]) && |s| < maxSize
      requires multiset(Elements()) == multiset(s)
      modifies this, table
      decreases 0, 6
      ensures Valid() && table == old(table) && table.Length == old(table.Length) && maxSize == old(maxSize)
      ensures multiset(Elements()) == multiset(s + [key])
    {
      MaxSizeMono(table.Length, MaxCapacity);
      DistinctLast(eq, s, key);
      InSeqMultiset(eq, Elements(), s, key);
      assert occupied == |multiset(s)| == |s|;
      var _ := Add(key);
    }

    /** The facts the re-insertions of one old slot need. */
    lemma RehashRoom(snap: seq<Slot<E>>, i: nat, room: nat)
      requires StrategyOk(hash, eq) && Placed(hash, eq, snap) && i < |snap|
      requires |Flat(snap)| <= room
      ensures Flat(snap[..i + 1]) == Flat(snap[..i]) + SlotKeys(snap[i])
      ensures Distinct(eq, Flat(snap[..i]) + SlotKeys(snap[i]))
      ensures |Flat(snap[..i]) + SlotKeys(snap[i])| <= room
    {
      FlatStep(snap, i);
      FlatDistinct(hash, eq, snap, i + 1);
      assert |Flat(snap[..i + 1])| <= |Flat(snap)| by {
        FlatAround(snap, i);
      }
    }

    /** The stored keys are pairwise unequal under the strategy. */
    lemma ElementsDistinct()
      requires Sound()
      ensures Distinct(eq, Elements())
    {
      FlatDistinct(hash, eq, table[..], table.Length);
      FlatAll(table[..]);
    }

    /** contains / chainContains: whether a stored element is strategy-equal to `key`. */
    method Contains(key: Key<E>) returns (r: bool)
      requires Valid()
      ensures r == InSeq(eq, Elements(), key)
    {
      var index := IndexFor(hash(key), table.Length);
      var cur := table[index];
      LookupSlot(hash, eq, table[..], key);
      if cur.Vacant? {
        return false;
      }
      if cur.Bucket? {
        var found := ChainLookup(eq, cur.head, key);
        return found.Some?;
      }
      return Match(eq, cur.k, key);
    }

    /**
     * get / chainedGet: the stored element strategy-equal to `key`, or null.
     * A lone element in its slot is handed back raw, so a stored null comes
     * back as the sentinel object; an element found in a chain goes through
     * nonSentinel.
     */
    method Get(key: Key<E>) returns (r: Ref<E>)
      requires Valid()
      ensures !InSeq(eq, Elements(), key) ==> r == Null
      ensures InSeq(eq, Elements(), key) && table[IndexFor(hash(key), table.Length)].Single? ==>
        r == Raw(Lookup(eq, Elements(), key).value)
      ensures InSeq(eq, Elements(), key) && table[IndexFor(hash(key), table.Length)].Bucket? ==>
        r == NonSentinel(Lookup(eq, Elements(), key).value)
      ensures key.Val? ==> r == if InSeq(eq, Elements(), key) then Obj(Lookup(eq, Elements(), key).value.e) else Null
    {
      var index := IndexFor(hash(key), table.Length);
      var cur := table[index];
      LookupSlot(hash, eq, table[..], key);
      if cur.Vacant? {
        return Null;
      }
      if cur.Bucket? {
        var found := ChainLookup(eq, cur.head, key);
        return if found.Some? then NonSentinel(found.value) else Null;
      }
      if Match(eq, cur.k, key) {
        return Raw(cur.k);
      }
      return Null;
    }

    /**
     * put: the pool insertion.  When a stored element is strategy-equal to
     * `key` it is returned and nothing changes; otherwise `key` is stored,
     * as add stores it, and returned.
     */
    method Put(key: Key<E>) returns (r: Ref<E>)
      requires Valid() && |Elements()| < MaxElements()
      modifies this, table
      ensures Valid()
      ensures InSeq(eq, old(Elements()), key) ==>
        r == NonSentinel(Lookup(eq, old(Elements()), key).value) && unchanged(this) && unchanged(table)
      ensures !InSeq(eq, old(Elements()), key) ==>
        && r == NonSentinel(key)
        && multiset(Elements()) == multiset(old(Elements())) + multiset{key}
        && occupied == old(occupied) + 1
      ensures old(occupied) < old(maxSize) ==> table == old(table)
      ensures table == old(table) || fresh(table)
      ensures !InSeq(eq, old(Elements()), key) && old(occupied) == old(maxSize) ==>
        fresh(table) && table.Length == 2 * old(table.Length)
    {
      var index := IndexFor(hash(key), table.Length);
      var cur := table[index];
      LookupSlot(hash, eq, table[..], key);
      if cur.Vacant? {
        Store(index, Single(key), key);
        return NonSentinel(key);
      }
      if cur.Bucket? || !Match(eq, cur.k, key) {
        r := ChainedPut(key, index);
        return;
      }
      return NonSentinel(cur.k);
    }

    /** chainedPut: chainedAdd that hands back the stored equal element, or `key` once stored. */
    method ChainedPut(key: Key<E>, index: nat) returns (r: Ref<E>)
      requires Valid() && |Elements()| < MaxElements()
      requires index == IndexFor(hash(key), table.Length)
      requires table[index].Bucket? || (table[index].Single? && !Match(eq, table[index].k, key))
      modifies this, table
      ensures Valid()
      ensures InSeq(eq, old(Elements()), key) ==>
        r == NonSentinel(Lookup(eq, old(Elements()), key).value) && unchanged(this) && unchanged(table)
      ensures !InSeq(eq, old(Elements()), key) ==>
        && r == NonSentinel(key)
        && multiset(Elements()) == multiset(old(Elements())) + multiset{key}
        && occupied == old(occupied) + 1
      ensures old(occupied) < old(maxSize) ==> table == old(table)
      ensures table == old(table) || fresh(table)
      ensures !InSeq(eq, old(Elements()), key) && old(occupied) == old(maxSize) ==>
        fresh(table) && table.Length == 2 * old(table.Length)
    {
      LookupSlot(hash, eq, table[..], key);
      match ChainedSlot(eq, table[index], key)
      case Found(stored) =>
        return NonSentinel(stored);
      case Extended(slot) =>
        Store(index, slot, key);
        return NonSentinel(key);
    }

    /**
     * The removal shared by remove and removeFromPool: take the stored
     * element equal to `key` out of its slot.  Returns the element removed.
     */
    method Delete(key: Key<E>) returns (removed: Option<Key<E>>)
      requires Valid()
      modifies this, table
      ensures Valid() && table == old(table)
      ensures removed == Lookup(eq, old(Elements()), key)
      ensures removed.None? ==> unchanged(this) && unchanged(table)
      ensures removed.Some? ==>
        && occupied == old(occupied) - 1
        && multiset(Elements()) == multiset(old(Elements())) - multiset{removed.value}
    {
      var index := IndexFor(hash(key), table.Length);
      var cur := table[index];
      LookupSlot(hash, eq, table[..], key);
      if cur.Vacant? {
        return None;
      }
      if cur.Single? {
        if !Match(eq, cur.k, key) {
          return None;
        }
        ghost var t := table[..];
        Unstore(index, Vacant, 0);
        RemoveSlotMultiset(t, index, Vacant, 0);
        return Some(cur.k);
      }
      removed := DeleteFromChain(key, index);
    }

    /**
     * removeFromChain / removeFromChainForPool on the chain in slot `index`,
     * packing it through removeLast; a chain whose `zero` field empties
     * leaves the slot null.
     */
    method DeleteFromChain(key: Key<E>, index: nat) returns (removed: Option<Key<E>>)
      requires Valid()
      requires index == IndexFor(hash(key), table.Length) && table[index].Bucket?
      modifies this, table
      ensures Valid() && table == old(table)
      ensures removed == Lookup(eq, old(Elements()), key)
      ensures removed.None? ==> unchanged(this) && unchanged(table)
      ensures removed.Some? ==>
        && occupied == old(occupied) - 1
        && multiset(Elements()) == multiset(old(Elements())) - multiset{removed.value}
    {
      var head := table[index].head;
      LookupSlot(hash, eq, table[..], key);
      var (node, found) := RemoveFromChain(eq, head, key);
      if found.None? {
        return None;
      }
      PackedLength(head);
      ghost var t := table[..];
      var slot := if node.zero.Empty? then Vacant else Bucket(node);
      Unstore(index, slot, Position(eq, Flatten(head), key));
      RemoveSlotMultiset(t, index, slot, Position(eq, Flatten(head), key));
      return found;
    }

    /**
     * `chain.remove(p)` on the chain in slot `index`, as the iterator's
     * remove does it: the chain loses its key at place `p` and its last key
     * moves into that place.
     */
    method RemoveFromChainAt(index: nat, p: nat) returns (node: Node<E>)
      requires Valid() && index < table.Length && table[index].Bucket?
      requires p + 1 < |Flatten(table[index].head)|
      modifies this, table
      ensures Valid() && table == old(table) && occupied == old(occupied) - 1
      ensures Flatten(node) == Drop(Flatten(old(table[..])[index].head), p)
      ensures table[..] == old(table[..])[index := Bucket(node)]
    {
      assert SlotOk(hash, eq, table[index], index, table.Length);
      node := RemoveAt(table[index].head, p);
      Unstore(index, Bucket(node), p);
    }

    /**
     * `chain.removeLast(0)` on the chain in slot `index`, as the iterator's
     * remove does it, clearing the slot when the chain's `zero` field is
     * left empty.
     */
    method RemoveLastFromChainAt(index: nat) returns (slot: Slot<E>)
      requires Valid() && index < table.Length && table[index].Bucket?
      modifies this, table
      ensures Valid() && table == old(table) && occupied == old(occupied) - 1
      ensures 1 <= |SlotKeys(old(table[..])[index])|
      ensures SlotKeys(slot) == Drop(SlotKeys(old(table[..])[index]), |SlotKeys(old(table[..])[index])| - 1)
      ensures table[..] == old(table[..])[index := slot]
    {
      var bucket := table[index].head;
      assert SlotOk(hash, eq, table[index], index, table.Length);
      PackedLength(bucket);
      var (node, _) := RemoveLast(bucket, 0);
      slot := if node.zero.Empty? then Vacant else Bucket(node);
      Unstore(index, slot, |Flatten(bucket)| - 1);
    }

    /** `table[index] = slot; occupied--`, where the slot has lost its key at place `p`. */
    method Unstore(index: nat, slot: Slot<E>, ghost p: nat)
      requires Valid() && index < table.Length && p < |SlotKeys(table[index])|
      requires SlotKeys(slot) == Drop(SlotKeys(table[index]), p)
      requires slot.Bucket? ==> Packed(slot.head)
      modifies this, table
      ensures Valid() && table == old(table) && occupied == old(occupied) - 1
      ensures table[..] == old(table[..])[index := slot]
    {
      ghost var t := table[..];
      RemoveSlot(hash, eq, t, index, slot, p);
      table[index] := slot;
      occupied := occupied - 1;
    }

    /**
     * remove: true iff a stored element was strategy-equal to `key`; that
     * element is gone, `occupied` drops by one and every element not equal
     * to `key` stays contained.  An absent key changes nothing.
     */
    method Remove(key: Key<E>) returns (removed: bool)
      requires Valid()
      modifies this, table
      ensures Valid() && table == old(table)
      ensures removed <==> InSeq(eq, old(Elements()), key)
      ensures removed ==> occupied == old(occupied) - 1
      ensures !removed ==> unchanged(this) && unchanged(table)
      ensures forall k :: InSeq(eq, Elements(), k) <==> InSeq(eq, old(Elements()), k) && !Match(eq, key, k)
    {
      ghost var before := Elements();
      ElementsDistinct();
      var found := Delete(key);
      RemovedMembers(hash, eq, before, Elements(), key);
      return found.Some?;
    }

    /** removeFromPool: remove, handing back the stored element removed (through nonSentinel) or null. */
    method RemoveFromPool(key: Key<E>) returns (r: Ref<E>)
      requires Valid()
      modifies this, table
      ensures Valid() && table == old(table)
      ensures InSeq(eq, old(Elements()), key) ==>
        && r == NonSentinel(Lookup(eq, old(Elements()), key).value)
        && occupied == old(occupied) - 1
        && multiset(Elements()) == multiset(old(Elements())) - multiset{Lookup(eq, old(Elements()), key).value}
      ensures !InSeq(eq, old(Elements()), key) ==> r == Null && unchanged(this) && unchanged(table)
    {
      var found := Delete(key);
      return if found.Some? then NonSentinel(found.value) else Null;
    }

    /** clear: nothing to do on an empty set; otherwise zero `occupied` and null every slot, last to first. */
    method Clear()
      requires Valid()
      modifies this, table
      ensures Valid() && Elements() == [] && occupied == 0
      ensures table == old(table) && forall i :: 0 <= i < table.Length ==> table[i] == Vacant
    {
      if occupied == 0 {
        FlatEmpty(hash, eq, table[..]);
        return;
      }
      occupied := 0;
      var slots := table;
      var i := slots.Length;
      while i > 0
        modifies slots
        invariant 0 <= i <= slots.Length
        invariant forall k :: i <= k < slots.Length ==> slots[k] == Vacant
      {
        i := i - 1;
        slots[i] := Vacant;
      }
      Emptied();
    }

    /** size: the number of stored elements. */
    method Size() returns (r: nat)
      requires Valid()
      ensures r == |Elements()|
    {
      return occupied;
    }

    /**
     * getBatchCount: max(1, table.length / batchSize), with Java's division;
     * a zero batch size throws ArithmeticException (None).
     */
    method GetBatchCount(batchSize: int) returns (r: Option<int>)
      ensures r.None? <==> batchSize == 0
      ensures r.Some? ==> r.value >= 1
      ensures 0 < batchSize <= table.Length ==> r.value * batchSize <= table.Length < (r.value + 1) * batchSize
      ensures batchSize < 0 || batchSize > table.Length ==> r == Some(1)
    {
      if batchSize == 0 {
        return None;
      }
      var q := JavaDiv(table.Length, batchSize);
      return Some(if 1 < q then q else 1);
    }

    /**
     * batchForEach: the procedure is applied, through nonSentinel, to the
     * stored keys of the slots of one section, in order.
     */
    method BatchForEach(sectionIndex: nat, sectionCount: nat) returns (visited: seq<Ref<E>>)
      requires Valid() && sectionIndex < sectionCount
      ensures visited == Refs(Flat(Section(table[..], sectionIndex, sectionCount)))
    {
      var start := SectionStart(table.Length, sectionIndex, sectionCount);
      var end := SectionEnd(table.Length, sectionIndex, sectionCount);
      visited := VisitSlots(start, end);
    }

    /** each: the procedure is applied, through nonSentinel, to every stored key in iteration order. */
    method Each() returns (visited: seq<Ref<E>>)
      requires Valid()
      ensures visited == Refs(Elements())
    {
      visited := VisitSlots(0, table.Length);
      assert table[0..table.Length] == table[..];
    }

    /**
     * The slot loop of batchForEach and each: a single element is handed
     * over directly, a chain through chainedForEach's walk.
     */
    method VisitSlots(start: nat, end: nat) returns (visited: seq<Ref<E>>)
      requires Valid() && start <= end <= table.Length
      ensures visited == Refs(Flat(table[start..end]))
    {
      ghost var t := table[..];
      visited := [];
      var i := start;
      while i < end
        invariant start <= i <= end
        invariant visited == Refs(Flat(t[start..i]))
      {
        var cur := table[i];
        var ks := [];
        if cur.Bucket? {
          assert SlotOk(hash, eq, t[i], i, |t|);
          ks := ChainKeys(cur.head);
        } else if cur.Single? {
          ks := [cur.k];
        }
        VisitStep(t, start, i, visited, ks);
        visited := visited + Refs(ks);
        i := i + 1;
      }
      assert t[start..end] == table[start..end];
    }

    /**
     * add, key after key, recording whether any call changed the set (the
     * `changed |= add(...)` idiom of copySet and copyChain).
     */
    method AddKeys(ks: seq<Key<E>>) returns (changed: bool)
      requires Valid() && |Elements()| + |ks| <= MaxElements()
      modifies this, table
      ensures Valid() && (table == old(table) || fresh(table))
      ensures changed <==> occupied > old(occupied)
      ensures old(occupied) <= occupied <= old(occupied) + |ks|
      ensures Joins(eq, Elements(), old(Elements()), ks)
      ensures (forall k :: k in ks ==> k in old(Elements())) ==> unchanged(this) && unchanged(table)
    {
      ghost var e0 := Elements();
      changed := false;
      var j := 0;
      assert ks[..j] == [];
      while j < |ks|
        invariant j <= |ks| && Valid() && (table == old(table) || fresh(table))
        invariant old(occupied) <= occupied <= old(occupied) + j
        invariant changed <==> occupied > old(occupied)
        invariant Joins(eq, Elements(), e0, ks[..j])
        invariant (forall k :: k in ks ==> k in e0) ==> unchanged(this) && unchanged(table)
      {
        var added := AddNextKey(e0, ks, j);
        changed := changed || added;
        j := j + 1;
      }
      assert ks[..j] == ks;
    }

    /** One turn of the `changed |= add(...)` loop: add the next key. */
    method AddNextKey(ghost e0: seq<Key<E>>, ks: seq<Key<E>>, j: nat) returns (added: bool)
      requires Valid() && j < |ks| && |Elements()| < MaxElements()
      requires Joins(eq, Elements(), e0, ks[..j])
      modifies this, table
      ensures Valid() && (table == old(table) || fresh(table))
      ensures old(occupied) <= occupied <= old(occupied) + 1 && (added <==> occupied > old(occupied))
      ensures Joins(eq, Elements(), e0, ks[..j + 1])
      ensures ks[j] in old(Elements()) ==> unchanged(this) && unchanged(table)
    {
      ghost var before := Elements();
      if ks[j] in before {
        InSeqSelf(hash, eq, before, ks[j]);
      }
      added := Add(ks[j]);
      AddStep(hash, eq, e0, before, Elements(), ks, j, added);
    }

    /** copyChain: add every key of a chain, in chain order; true iff the set grew. */
    method CopyChain(head: Node<E>) returns (changed: bool)
      requires Valid() && Packed(head) && |Elements()| + |Flatten(head)| <= MaxElements()
      modifies this, table
      ensures Valid() && (table == old(table) || fresh(table))
      ensures changed <==> occupied > old(occupied)
      ensures old(occupied) <= occupied <= old(occupied) + |Flatten(head)|
      ensures Joins(eq, Elements(), old(Elements()), Flatten(head))
      ensures (forall k :: k in Flatten(head) ==> k in old(Elements())) ==> unchanged(this) && unchanged(table)
    {
      var ks := ChainKeys(head);
      changed := AddKeys(ks);
    }

    /**
     * copySet: add every element of another set, slot by slot; true iff
     * this set grew.  Afterwards the members are this set's and the other
     * set's, compared with this set's strategy.  Copying a set into itself
     * finds every element already there and changes nothing.
     */
    method CopySet(other: UnifiedSetWithHashingStrategy<E>) returns (changed: bool)
      requires Valid() && other.Valid() && (other == this || other.table != table)
      requires |Elements()| + |other.Elements()| <= MaxElements()
      modifies this, table
      ensures Valid()
      ensures changed <==> occupied > old(occupied)
      ensures Joins(eq, Elements(), old(Elements()), other.Elements())
      ensures other == this ==> !changed && unchanged(this) && unchanged(table)
    {
      ghost var e0 := Elements();
      ghost var src := other.table[..];
      changed := false;
      var i := 0;
      while i < other.table.Length
        invariant i <= other.table.Length == |src| && other.table[..] == src
        invariant Valid() && (table == old(table) || fresh(table))
        invariant old(occupied) <= occupied <= old(occupied) + |Flat(src[..i])|
        invariant changed <==> occupied > old(occupied)
        invariant Joins(eq, Elements(), e0, Flat(src[..i]))
        invariant other == this ==> unchanged(this) && unchanged(table)
      {
        ghost var before := Elements();
        var cur := other.table[i];
        if other == this {
          SlotInFlat(src, i);
        }
        assert SlotOk(other.hash, other.eq, src[i], i, |src|);
        assert |Flat(src[..i])| + |SlotKeys(cur)| <= |other.Elements()| by {
          FlatStep(src, i);
          FlatPrefix(src, i + 1);
        }
        var c := CopySlot(cur);
        CopyStep(eq, e0, before, Elements(), src, i);
        FlatStep(src, i);
        changed := changed || c;
        i := i + 1;
      }
      FlatAll(src);
    }

    /** The body of copySet's loop: copyChain for a chain, add for a single element. */
    method CopySlot(cur: Slot<E>) returns (changed: bool)
      requires Valid() && (cur.Bucket? ==> Packed(cur.head))
      requires |Elements()| + |SlotKeys(cur)| <= MaxElements()
      modifies this, table
      ensures Valid() && (table == old(table) || fresh(table))
      ensures changed <==> occupied > old(occupied)
      ensures old(occupied) <= occupied <= old(occupied) + |SlotKeys(cur)|
      ensures Joins(eq, Elements(), old(Elements()), SlotKeys(cur))
      ensures (forall k :: k in SlotKeys(cur) ==> k in old(Elements())) ==> unchanged(this) && unchanged(table)
    {
      changed := false;
      if cur.Bucket? {
        changed := CopyChain(cur.head);
      } else if cur.Single? {
        ghost var before := Elements();
        if cur.k in before {
          InSeqSelf(hash, eq, before, cur.k);
        }
        changed := Add(cur.k);
        AddStep(hash, eq, before, before, Elements(), [cur.k], 0, changed);
        assert [cur.k][..1] == [cur.k];
      }
    }

    /**
     * removeAllIterable: remove each key in turn; true iff the set shrank.
     * Afterwards the members are the old ones equal to none of the keys.
     */
    method RemoveAllIterable(keys: seq<Key<E>>) returns (changed: bool)
      requires Valid()
      modifies this, table
      ensures Valid() && table == old(table)
      ensures changed <==> occupied < old(occupied)
      ensures forall k :: InSeq(eq, Elements(), k) <==> InSeq(eq, old(Elements()), k) && !InSeq(eq, keys, k)
    {
      ghost var e0 := Elements();
      changed := false;
      var j := 0;
      while j < |keys|
        invariant j <= |keys| && Valid() && table == old(table)
        invariant occupied <= old(occupied)
        invariant changed <==> occupied < old(occupied)
        invariant forall k :: InSeq(eq, Elements(), k) <==> InSeq(eq, e0, k) && !InSeq(eq, keys[..j], k)
      {
        var removed := RemoveNext(e0, keys, j);
        changed := changed || removed;
        j := j + 1;
      }
      assert keys[..j] == keys;
    }

    /** One turn of removeAllIterable's loop: remove the next key. */
    method RemoveNext(ghost e0: seq<Key<E>>, keys: seq<Key<E>>, j: nat) returns (removed: bool)
      requires Valid() && j < |keys|
      requires forall k :: InSeq(eq, Elements(), k) <==> InSeq(eq, e0, k) && !InSeq(eq, keys[..j], k)
      modifies this, table
      ensures Valid() && table == old(table)
      ensures occupied <= old(occupied) && (removed <==> occupied < old(occupied))
      ensures forall k :: InSeq(eq, Elements(), k) <==> InSeq(eq, e0, k) && !InSeq(eq, keys[..j + 1], k)
    {
      ghost var before := Elements();
      removed := Remove(keys[j]);
      RemoveStep(hash, eq, e0, before, Elements(), keys, j);
    }

    /**
     * addIfFound: when an element equal to `key` is stored here, add it to
     * `other`.
     */
    method AddIfFound(key: Key<E>, other: UnifiedSetWithHashingStrategy<E>)
      requires Valid() && other.Valid() && other != this && other.table != table
      requires other.hash == hash && other.eq == eq
      requires |other.Elements()| < MaxElements()
      modifies other, other.table
      ensures other.Valid() && other.table != table
      ensures other.table == old(other.table) || fresh(other.table)
      ensures old(other.occupied) <= other.occupied <= old(other.occupied) + 1
      ensures forall k :: InSeq(eq, other.Elements(), k) <==>
        InSeq(eq, old(other.Elements()), k) || (InSeq(eq, Elements(), key) && Match(eq, key, k))
      ensures !InSeq(eq, Elements(), key) || InSeq(eq, old(other.Elements()), key) ==>
        other.Elements() == old(other.Elements())
      ensures InSeq(eq, Elements(), key) && !InSeq(eq, old(other.Elements()), key) ==>
        multiset(other.Elements()) == multiset(old(other.Elements())) + multiset{Lookup(eq, Elements(), key).value}
    {
      var index := IndexFor(hash(key), table.Length);
      var cur := table[index];
      LookupInSlot(hash, eq, table[..], key);
      if cur.Vacant? {
        return;
      }
      if cur.Bucket? {
        AddIfFoundFromChain(cur.head, key, other);
        return;
      }
      ghost var mine := Elements();
      if Match(eq, cur.k, key) {
        assert Lookup(eq, mine, key) == Some(cur.k);
        Offer(other, cur.k, key);
      }
      assert Elements() == mine;
    }

    /** addIfFoundFromChain: the chain scan of addIfFound. */
    method AddIfFoundFromChain(head: Node<E>, key: Key<E>, other: UnifiedSetWithHashingStrategy<E>)
      requires Valid() && other.Valid() && other != this && other.table != table
      requires other.hash == hash && other.eq == eq
      requires |other.Elements()| < MaxElements()
      requires table[IndexFor(hash(key), table.Length)] == Bucket(head)
      modifies other, other.table
      ensures other.Valid() && other.table != table
      ensures other.table == old(other.table) || fresh(other.table)
      ensures old(other.occupied) <= other.occupied <= old(other.occupied) + 1
      ensures forall k :: InSeq(eq, other.Elements(), k) <==>
        InSeq(eq, old(other.Elements()), k) || (InSeq(eq, Elements(), key) && Match(eq, key, k))
      ensures !InSeq(eq, Elements(), key) || InSeq(eq, old(other.Elements()), key) ==>
        other.Elements() == old(other.Elements())
      ensures InSeq(eq, Elements(), key) && !InSeq(eq, old(other.Elements()), key) ==>
        multiset(other.Elements()) == multiset(old(other.Elements())) + multiset{Lookup(eq, Elements(), key).value}
    {
      LookupInSlot(hash, eq, table[..], key);
      var found := ChainLookup(eq, head, key);
      ghost var mine := Elements();
      assert found == Lookup(eq, mine, key);
      if found.Some? {
        Offer(other, found.value, key);
      }
      assert Elements() == mine;
    }

    /** `other.add(nonSentinel(s))` for the stored element `s` found equal to `key`. */
    method Offer(other: UnifiedSetWithHashingStrategy<E>, s: Key<E>, ghost key: Key<E>)
      requires Valid() && other.Valid() && other != this && other.table != table
      requires other.hash == hash && other.eq == eq && Match(eq, s, key)
      requires |other.Elements()| < MaxElements()
      modifies other, other.table
      ensures other.Valid() && other.table != table
      ensures other.table == old(other.table) || fresh(other.table)
      ensures old(other.occupied) <= other.occupied <= old(other.occupied) + 1
      ensures forall k :: InSeq(eq, other.Elements(), k) <==> InSeq(eq, old(other.Elements()), k) || Match(eq, key, k)
      ensures InSeq(eq, old(other.Elements()), key) ==> other.Elements() == old(other.Elements())
      ensures !InSeq(eq, old(other.Elements()), key) ==>
        multiset(other.Elements()) == multiset(old(other.Elements())) + multiset{s}
    {
      ghost var before := other.Elements();
      MemberClass(hash, eq, before, s, key);
      var added := other.Add(s);
      JoinClass(hash, eq, before, other.Elements(), s, key, added);
    }

    /**
     * retainAllFromNonSet: build a set, sized for the keys, of the stored
     * elements equal to some key; when it is smaller, adopt its table and
     * counts and answer true.  Otherwise nothing changes.
     */
    method RetainAllFromNonSet(keys: seq<Key<E>>) returns (changed: bool)
      requires Valid() && RequiredCapacity(|keys|) <= MaxCapacity
      modifies this
      ensures Valid()
      ensures changed ==> occupied < old(occupied)
      ensures forall k :: InSeq(eq, Elements(), k) <==> InSeq(eq, old(Elements()), k) && InSeq(eq, keys, k)
      ensures !changed ==> unchanged(this)
    {
      CapacityRoom(|keys|);
      var retained := new UnifiedSetWithHashingStrategy.WithCapacity(hash, eq, |keys|);
      CollectRetained(keys, retained);
      if retained.occupied < occupied {
        maxSize := retained.maxSize;
        occupied := retained.occupied;
        table := retained.table;
        return true;
      }
      // As many keys were retained as are stored, so every stored key was among them.
      ElementsDistinct();
      retained.ElementsDistinct();
      RetainedAll(hash, eq, retained.Elements(), Elements(), keys);
      return false;
    }

    /** The loop of retainAllFromNonSet: addIfFound for every key, into the empty set `retained`. */
    method CollectRetained(keys: seq<Key<E>>, retained: UnifiedSetWithHashingStrategy<E>)
      requires Valid() && |keys| <= MaxElements()
      requires retained.Valid() && retained.hash == hash && retained.eq == eq && retained.Elements() == []
      requires retained != this && retained.table != table
      modifies retained, retained.table
      ensures retained.Valid() && retained.table != table
      ensures Retains(eq, retained.Elements(), Elements(), keys)
    {
      ghost var mine := Elements();
      var j := 0;
      while j < |keys|
        invariant j <= |keys|
        invariant retained.Valid() && retained.table != table
        invariant retained.table == old(retained.table) || fresh(retained.table)
        invariant retained.occupied <= j
        invariant Retains(eq, retained.Elements(), mine, keys[..j])
      {
        RetainNext(keys, j, retained);
        j := j + 1;
      }
      assert keys[..j] == keys;
    }

    /** One turn of retainAllFromNonSet's loop: addIfFound for the next key. */
    method RetainNext(keys: seq<Key<E>>, j: nat, retained: UnifiedSetWithHashingStrategy<E>)
      requires Valid() && j < |keys|
      requires retained.Valid() && retained.hash == hash && retained.eq == eq
      requires retained != this && retained.table != table && retained.occupied <= j < MaxElements()
      requires Retains(eq, retained.Elements(), Elements(), keys[..j])
      modifies retained, retained.table
      ensures retained.Valid() && retained.table != table
      ensures retained.table == old(retained.table) || fresh(retained.table)
      ensures retained.occupied <= j + 1
      ensures Retains(eq, retained.Elements(), Elements(), keys[..j + 1])
    {
      ghost var before := retained.Elements();
      AddIfFound(keys[j], retained);
      RetainStep(hash, eq, Elements(), before, retained.Elements(), keys, j);
    }

    /**
     * The copy constructor: the other set's threshold and count, a table of
     * the same length, and every slot copied (a chain through
     * ChainedBucket.copy).  It takes the given strategy as it is; the copy is
     * a valid set under the other set's own strategy.
     */
    constructor Copy(hash: Key<E> -> Int32, eq: (E, E) -> bool, other: UnifiedSetWithHashingStrategy<E>)
      requires other.Valid()
      ensures this.hash == hash && this.eq == eq
      ensures fresh(table) && table[..] == other.table[..]
      ensures occupied == other.occupied && maxSize == other.maxSize
      ensures hash == other.hash && eq == other.eq ==> Valid() && Elements() == other.Elements()
    {
      this.hash := hash;
      this.eq := eq;
      maxSize := other.maxSize;
      occupied := other.occupied;
      table := new Slot<E>[other.table.Length](_ => Vacant);
      new;
      var i := 0;
      while i < other.table.Length
        modifies table
        invariant i <= other.table.Length == table.Length && other.table != table
        invariant forall k :: 0 <= k < i ==> table[k] == other.table[k]
        invariant forall k :: i <= k < table.Length ==> table[k] == Vacant
      {
        var cur := other.table[i];
        if cur.Bucket? {
          table[i] := Bucket(cur.head);
        } else if cur.Single? {
          table[i] := cur;
        }
        i := i + 1;
      }
      assert table[..] == other.table[..];
    }

    /**
     * newSet(hashingStrategy, size): a set sized for `size` elements; a
     * negative size throws IllegalArgumentException (None).
     */
    static method NewSet(hash: Key<E> -> Int32, eq: (E, E) -> bool, size: int) returns (r: Option<UnifiedSetWithHashingStrategy<E>>)
      requires StrategyOk(hash, eq)
      requires size >= 0 ==> RequiredCapacity(size) <= MaxCapacity
      ensures r.None? <==> size < 0
      ensures r.Some? ==> fresh(r.value) && r.value.Valid() && r.value.Elements() == []
      ensures r.Some? ==> r.value.hash == hash && r.value.eq == eq
    {
      if size < 0 {
        return None;
      }
      var s := new UnifiedSetWithHashingStrategy.WithCapacity(hash, eq, size);
      return Some(s);
    }
  }
}
