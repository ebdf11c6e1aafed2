/**
 * The iteration order seen from a position in the table: how many keys a
 * walk has passed, and what removing one key does to the order.
 */
module Walks {
  import opened Keys
  import opened Buckets
  import opened Table

  /** The number of keys stored in the slots before `p`. */
  ghost function Passed<E>(t: seq<Slot<E>>, p: nat): nat
    requires p <= |t|
  {
    if p == 0 then 0 else Passed(t, p - 1) + |SlotKeys(t[p - 1])|
  }

  /** They are the keys of the iteration order up to that slot. */
  lemma {:induction false} PassedFlat<E>(t: seq<Slot<E>>, p: nat)
    requires p <= |t|
    ensures Passed(t, p) == |Flat(t[..p])|
  {
    if p > 0 {
      PassedFlat(t, p - 1);
      PassedNext(t, p - 1);
      FlatStep(t, p - 1);
    }
  }

  /** Changing a slot at or after `p` leaves the count before `p` alone. */
  lemma {:induction false} PassedUpdate<E>(t: seq<Slot<E>>, i: nat, s: Slot<E>, p: nat)
    requires p <= i < |t|
    ensures Passed(t[i := s], p) == Passed(t, p)
  {
    if p > 0 {
      PassedUpdate(t, i, s, p - 1);
    }
  }

  /**
   * The iterator's position in table `t`: `count` keys of the iteration
   * order lie behind it, those of the slots before `position` and, when
   * `chainPosition` is not 0, that many of the chain at `position`.  Right
   * after a `next` that did not stop inside a chain, the key returned
   * belongs to the slot just before `position`.
   */
  ghost predicate Walk<E>(t: seq<Slot<E>>, position: nat, chainPosition: nat, count: nat, lastReturned: bool)
  {
    && position <= |t|
    && (chainPosition != 0 ==> InChain(t, position, chainPosition))
    && count == Passed(t, position) + chainPosition
    && (lastReturned ==> count >= 1)
    && (lastReturned && chainPosition == 0 ==> 1 <= position && !t[position - 1].Vacant?)
  }

  /** Slot `position` holds a chain and `chainPosition` is one of its places. */
  ghost predicate InChain<E>(t: seq<Slot<E>>, position: nat, chainPosition: nat)
  {
    && position < |t|
    && t[position].Bucket?
    && chainPosition < |Flatten(t[position].head)|
  }

  /** A walk never counts past the number of keys. */
  lemma WalkBound<E>(t: seq<Slot<E>>, position: nat, chainPosition: nat, count: nat, lastReturned: bool)
    requires Walk(t, position, chainPosition, count, lastReturned)
    ensures count <= |Flat(t)|
  {
    if chainPosition != 0 {
      PassedNext(t, position);
      PassedBound(t, position + 1);
    } else {
      PassedBound(t, position);
    }
  }

  /** Passing slot `i` adds its keys to the count. */
  lemma PassedNext<E>(t: seq<Slot<E>>, i: nat)
    requires i < |t|
    ensures Passed(t, i + 1) == Passed(t, i) + |SlotKeys(t[i])|
  {
  }

  /** The count never exceeds the number of keys. */
  lemma PassedBound<E>(t: seq<Slot<E>>, p: nat)
    requires p <= |t|
    ensures Passed(t, p) <= |Flat(t)|
  {
    PassedFlat(t, p);
    FlatPrefix(t, p);
  }

  /** With keys still ahead, the walk has not left the table. */
  lemma WalkAhead<E>(t: seq<Slot<E>>, position: nat, count: nat)
    requires position <= |t| && count == Passed(t, position) < |Flat(t)|
    ensures position < |t|
  {
    PassedFlat(t, position);
    FlatAll(t);
  }

  /** Skipping a null slot passes no key. */
  lemma WalkVacant<E>(t: seq<Slot<E>>, position: nat, count: nat)
    requires position < |t| && t[position].Vacant? && count == Passed(t, position) < |Flat(t)|
    ensures count == Passed(t, position + 1) && position + 1 < |t|
  {
    WalkAhead(t, position + 1, count);
  }

  /** A single element is the key at place `count`; the walk moves past its slot. */
  lemma WalkSingle<E>(t: seq<Slot<E>>, position: nat, count: nat)
    requires position < |t| && t[position].Single? && count == Passed(t, position)
    ensures count < |Flat(t)| && Flat(t)[count] == t[position].k
    ensures Walk(t, position + 1, 0, count + 1, true)
  {
    PassedFlat(t, position);
    FlatAround(t, position);
  }

  /**
   * Place `chainPosition` of a chain is the key at place `count`; the walk
   * stays in the chain unless that was its last key.
   */
  lemma WalkChain<E>(t: seq<Slot<E>>, position: nat, chainPosition: nat, count: nat, nextPosition: nat, nextChain: nat)
    requires InChain(t, position, chainPosition) && count == Passed(t, position) + chainPosition
    requires if chainPosition + 1 < |Flatten(t[position].head)|
      then nextPosition == position && nextChain == chainPosition + 1
      else nextPosition == position + 1 && nextChain == 0
    ensures count < |Flat(t)| && Flat(t)[count] == Flatten(t[position].head)[chainPosition]
    ensures Walk(t, nextPosition, nextChain, count + 1, true)
  {
    var keys := Flatten(t[position].head);
    PassedFlat(t, position);
    FlatAround(t, position);
    assert Flat(t)[count] == (Flat(t[..position]) + keys)[count];
    if chainPosition + 1 == |keys| {
      PassedNext(t, position);
    }
  }

  /**
   * Removing place `p` (not the last) of the chain at `position` keeps the
   * walk at place `p` of the same chain.
   */
  lemma WalkRemoveInside<E>(t: seq<Slot<E>>, position: nat, p: nat, count: nat, s: Slot<E>)
    requires InChain(t, position, p + 1) && count == Passed(t, position) + p
    requires s.Bucket? && SlotKeys(s) == Drop(SlotKeys(t[position]), p)
    ensures Walk(t[position := s], position, p, count, false)
    ensures RemovedAtPlace(Flat(t), Flat(t[position := s]), count)
  {
    PassedUpdate(t, position, s, position);
    PassedFlat(t, position);
    RemovedAt(t, position, s, p, count);
  }

  /**
   * Removing the last key of slot `i`, the one the walk just passed,
   * leaves the walk after slot `i`, or at slot `i` when that was its only
   * key.
   */
  lemma WalkRemoveLast<E>(t: seq<Slot<E>>, i: nat, count: nat, s: Slot<E>)
    requires i < |t| && 1 <= |SlotKeys(t[i])| && count + 1 == Passed(t, i + 1)
    requires SlotKeys(s) == Drop(SlotKeys(t[i]), |SlotKeys(t[i])| - 1)
    ensures Walk(t[i := s], i + 1, 0, count, false)
    ensures |SlotKeys(t[i])| == 1 ==> Walk(t[i := s], i, 0, count, false)
    ensures RemovedAtPlace(Flat(t), Flat(t[i := s]), count)
  {
    PassedUpdate(t, i, s, i);
    PassedFlat(t, i);
    RemovedAt(t, i, s, |SlotKeys(t[i])| - 1, count);
  }

  /**
   * Replacing slot `i` by one that lost its key at place `p` removes the
   * key at place |Flat(t[..i])| + p of the iteration order.
   */
  lemma RemovedAt<E>(t: seq<Slot<E>>, i: nat, s: Slot<E>, p: nat, c: nat)
    requires i < |t| && p < |SlotKeys(t[i])| && SlotKeys(s) == Drop(SlotKeys(t[i]), p)
    requires c == |Flat(t[..i])| + p
    ensures RemovedAtPlace(Flat(t), Flat(t[i := s]), c)
  {
    var a, k, b := Flat(t[..i]), SlotKeys(t[i]), Flat(t[i + 1..]);
    ShiftOut(a + k + b, a + SlotKeys(s) + b, a, k, b, p, c);
    SplitAround(t, i, s, c);
  }

  /** The iteration orders before and after replacing slot i, seen as their three parts. */
  lemma SplitAround<E>(t: seq<Slot<E>>, i: nat, s: Slot<E>, c: nat)
    requires i < |t|
    ensures RemovedAtPlace(Flat(t), Flat(t[i := s]), c)
      == RemovedAtPlace(Flat(t[..i]) + SlotKeys(t[i]) + Flat(t[i + 1..]), Flat(t[..i]) + SlotKeys(s) + Flat(t[i + 1..]), c)
  {
    FlatAround(t, i);
    FlatUpdate(t, i, s);
  }

  /** Dropping place `p` of the middle part of a + s + b, seen from the whole sequence. */
  lemma ShiftOut<E>(before: seq<Key<E>>, after: seq<Key<E>>, a: seq<Key<E>>, s: seq<Key<E>>, b: seq<Key<E>>, p: nat, c: nat)
    requires p < |s| && before == a + s + b && after == a + Drop(s, p) + b && c == |a| + p
    ensures RemovedAtPlace(before, after, c)
  {
    var d := Drop(s, p);
    assert after[..c] == a + d[..p];
    assert before[..c] == a + s[..p];
    assert after[c..] == d[p..] + b;
    assert before[c + 1..] == s[p + 1..] + b;
    if p < |s| - 1 {
      assert d[p..] == [s[|s| - 1]] + s[p + 1..|s| - 1];
      assert s[p + 1..] == s[p + 1..|s| - 1] + [s[|s| - 1]];
    }
  }

  /**
   * The chain step of nextFromChain: the key at `chainPosition` of the
   * chain `head` in slot `position`, and where the walk goes next — the
   * following field of the chain, or the next slot when `get` finds that
   * field empty.
   */
  method NextInChain<E>(ghost t: seq<Slot<E>>, head: Node<E>, position: nat, chainPosition: nat, ghost count: nat)
    returns (k: Key<E>, p: nat, c: nat)
    requires InChain(t, position, chainPosition) && t[position] == Bucket(head) && Packed(head)
    requires count == Passed(t, position) + chainPosition
    ensures count < |Flat(t)| && Flat(t)[count] == k
    ensures Walk(t, p, c, count + 1, true)
  {
    var cur := At(head, chainPosition);
    var after := At(head, chainPosition + 1);
    p, c := position, chainPosition + 1;
    if after.Empty? {
      p, c := p + 1, 0;
    }
    WalkChain(t, position, chainPosition, count, p, c);
    k := cur.k;
  }

  /**
   * The scan of `next` over null slots, from `position` on: it stops at
   * the slot that holds the key at place `count` of the iteration order.
   */
  method SkipVacant<E>(table: array<Slot<E>>, position: nat, ghost count: nat) returns (p: nat)
    requires position <= table.Length && count == Passed(table[..], position) < |Flat(table[..])|
    ensures position <= p < table.Length && !table[p].Vacant?
    ensures count == Passed(table[..], p)
  {
    ghost var t := table[..];
    WalkAhead(t, position, count);
    p := position;
    while table[p].Vacant?
      invariant position <= p < |t| && Passed(t, p) == count
      decreases |t| - p
    {
      WalkVacant(t, p, count);
      p := p + 1;
    }
  }
}
