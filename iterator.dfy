/**
 * PositionalIterator, the set's iterator: it walks the table slot by slot
 * and each chain field by field, and its `remove` takes out the element
 * last returned, even from the middle of a chain.
 */
module Iterators {
  import opened Keys
  import opened Buckets
  import opened Table
  import opened UnifiedSets
  import opened Walks

  class PositionalIterator<E(!new)> {
    /** The set being iterated: the enclosing instance of the inner class. */
    const owner: UnifiedSetWithHashingStrategy<E>

    var count: nat
    var position: nat
    var chainPosition: nat
    var lastReturned: bool

    /** The iterator's invariant; every operation also needs the set's own. */
    ghost predicate Valid()
      reads this, owner, owner.table
    {
      Walk(owner.table[..], position, chainPosition, count, lastReturned)
    }

    /** iterator(): a fresh iterator at the start of the table. */
    constructor (owner: UnifiedSetWithHashingStrategy<E>)
      requires owner.Valid()
      ensures this.owner == owner && Valid()
      ensures count == 0 && !lastReturned
    {
      this.owner := owner;
      count := 0;
      position := 0;
      chainPosition := 0;
      lastReturned := false;
    }

    /** hasNext: true iff fewer than size() elements have been returned. */
    method HasNext() returns (r: bool)
      requires owner.Valid() && Valid()
      ensures r <==> count < |owner.Elements()|
    {
      return count < owner.occupied;
    }

    /**
     * next: the element at place `count` of the iteration order, through
     * nonSentinel; an exhausted iterator throws NoSuchElementException
     * (None) and stays as it is.
     */
    method Next() returns (r: Option<Ref<E>>)
      requires owner.Valid() && Valid()
      modifies this
      ensures Valid()
      ensures old(count) <= |owner.Elements()|
      ensures r.None? <==> old(count) == |owner.Elements()|
      ensures r.None? ==> unchanged(this)
      ensures r.Some? ==>
        && r.value == NonSentinel(owner.Elements()[old(count)])
        && count == old(count) + 1 && lastReturned
    {
      WalkBound(owner.table[..], position, chainPosition, count, lastReturned);
      var more := HasNext();
      if !more {
        return None;
      }
      PlacedPacked(owner.hash, owner.eq, owner.table[..]);
      var v := Advance();
      return Some(v);
    }

    /** The part of `next` after the hasNext check: count the element, fetch it and move on. */
    method Advance() returns (r: Ref<E>)
      requires ChainsPacked(owner.table[..]) && Valid() && count < |Flat(owner.table[..])|
      modifies this
      ensures Valid() && count == old(count) + 1 && lastReturned
      ensures r == NonSentinel(Flat(owner.table[..])[old(count)])
    {
      ghost var t := owner.table[..];
      var k, p, c;
      if chainPosition != 0 {
        k, p, c := NextInChain(t, owner.table[position].head, position, chainPosition, count);
      } else {
        k, p, c := NextFromTable();
      }
      assert Walk(t, p, c, count + 1, true) && Flat(t)[count] == k;
      count, position, chainPosition, lastReturned := count + 1, p, c, true;
      assert owner.table[..] == t;
      r := NonSentinel(k);
    }

    /**
     * The part of `next` after a finished chain: skip the null slots, then
     * either start the chain found (nextFromChain) or take the single key
     * and step past its slot.  It answers the key and the walk's next
     * `position` and `chainPosition`.
     */
    method NextFromTable() returns (k: Key<E>, p: nat, c: nat)
      requires ChainsPacked(owner.table[..]) && chainPosition == 0 && position <= owner.table.Length
      requires count == Passed(owner.table[..], position) < |Flat(owner.table[..])|
      ensures Flat(owner.table[..])[count] == k
      ensures Walk(owner.table[..], p, c, count + 1, true)
    {
      var q := SkipVacant(owner.table, position, count);
      var cur := owner.table[q];
      if cur.Bucket? {
        PackedLength(cur.head);
        k, p, c := NextInChain(owner.table[..], cur.head, q, 0, count);
        return;
      }
      WalkSingle(owner.table[..], q, count);
      k, p, c := cur.k, q + 1, 0;
    }

    /**
     * remove: take out the element last returned.  Without a `next` since
     * the last `remove` it throws IllegalStateException (false) and changes
     * nothing.  Otherwise the set loses that element and `count` steps
     * back: the elements already returned keep their places in the
     * iteration order and the ones still to come are the same elements,
     * possibly reordered, so each is still returned exactly once.
     */
    method Remove() returns (ok: bool)
      requires owner.Valid() && Valid()
      modifies this, owner, owner.table
      ensures owner.Valid() && Valid() && owner.table == old(owner.table)
      ensures ok <==> old(lastReturned)
      ensures !ok ==> unchanged(this) && unchanged(owner) && unchanged(owner.table)
      ensures ok ==>
        && count == old(count) - 1 && !lastReturned
        && owner.occupied == old(owner.occupied) - 1
        && RemovedAtPlace(old(owner.Elements()), owner.Elements(), count)
    {
      if !lastReturned {
        return false;
      }
      if chainPosition != 0 {
        RemoveFromChain();
        return true;
      }
      var pos := position - 1;
      var key := owner.table[pos];
      if key.Bucket? {
        RemoveLastFromChain(key.head, pos);
        return true;
      }
      RemoveSingle(pos);
      return true;
    }

    /**
     * The last branch of remove: the element last returned was the single
     * key of slot `pos`, which becomes null; the walk steps back onto it.
     */
    method RemoveSingle(pos: nat)
      requires owner.Valid() && Valid() && lastReturned && chainPosition == 0
      requires pos + 1 == position && owner.table[pos].Single?
      modifies this, owner, owner.table
      ensures owner.Valid() && Valid() && owner.table == old(owner.table) && !lastReturned
      ensures count == old(count) - 1 && owner.occupied == old(owner.occupied) - 1
      ensures RemovedAtPlace(old(owner.Elements()), owner.Elements(), count)
    {
      ghost var t := owner.table[..];
      WalkRemoveLast(t, pos, count - 1, Vacant);
      position, count, lastReturned := pos, count - 1, false;
      owner.Unstore(pos, Vacant, 0);
    }

    /**
     * removeFromChain: `remove(--chainPosition)` on the chain at `position`,
     * which moves the chain's last element into the freed field; the walk
     * resumes at that field.
     */
    method RemoveFromChain()
      requires owner.Valid() && Valid() && lastReturned && chainPosition != 0
      modifies this, owner, owner.table
      ensures owner.Valid() && Valid() && owner.table == old(owner.table) && !lastReturned
      ensures count == old(count) - 1 && owner.occupied == old(owner.occupied) - 1
      ensures RemovedAtPlace(old(owner.Elements()), owner.Elements(), count)
    {
      ghost var t := owner.table[..];
      var p := chainPosition - 1;
      chainPosition, count, lastReturned := p, count - 1, false;
      var node := owner.RemoveFromChainAt(position, p);
      WalkRemoveInside(t, position, p, count, Bucket(node));
    }

    /**
     * removeLastFromChain: the element last returned ended the chain in
     * slot `tableIndex`, so `removeLast(0)` drops it; a chain left with no
     * `zero` field is cleared from the table.
     */
    method RemoveLastFromChain(bucket: Node<E>, tableIndex: nat)
      requires owner.Valid() && Valid() && lastReturned && chainPosition == 0
      requires tableIndex + 1 == position && owner.table[tableIndex] == Bucket(bucket)
      modifies this, owner, owner.table
      ensures owner.Valid() && Valid() && owner.table == old(owner.table) && !lastReturned
      ensures count == old(count) - 1 && owner.occupied == old(owner.occupied) - 1
      ensures RemovedAtPlace(old(owner.Elements()), owner.Elements(), count)
    {
      ghost var t := owner.table[..];
      assert Flat(t) == old(owner.Elements());
      count, lastReturned := count - 1, false;
      var slot := owner.RemoveLastFromChainAt(tableIndex);
      WalkRemoveLast(t, tableIndex, count, slot);
      assert owner.Elements() == Flat(t[tableIndex := slot]);
    }
  }

}
