/**
 * Two places where the code departs from what the rest of the class
 * evidently intends.  Each is modelled as written, shown to go wrong on a
 * concrete input, and set beside the corrected definition that the rest of
 * the model uses (Buckets.RemoveAt and Table.ChainedSlot).
 */
module Findings {
  import opened Keys
  import opened Buckets
  import opened Table

  /**
   * removeLongChain(oldBucket, i) as written: index 3 of a node that
   * continues moves on to index 0 of the next node, but any index above 3
   * falls through to the `default` branch and throws AssertionError (None).
   */
  function RemoveLongChainAsWritten<E>(parent: Node<E>, i: nat): (r: Option<Node<E>>)
    requires Packed(parent) && parent.three.Next? && i + 1 < |Flatten(parent.three.next)|
    ensures r.Some? <==> i <= 3
    ensures r.Some? ==> r.value == RemoveLongChain(parent, i)
    decreases parent
  {
    var b := parent.three.next;
    PackedLength(b);
    PackedShape(b);
    if i < 3 then
      Some(parent.(three := Next(RemoveField(b, i))))
    else if i > 3 then
      None
    else if b.three.Next? then
      match RemoveLongChainAsWritten(b, 0)
      case Some(b') => Some(parent.(three := Next(b')))
      case None => None
    else
      Some(parent.(three := Next(b.(three := NoTail))))
  }

  /**
   * ChainedBucket.remove(i) as written: indexes above 3 go to
   * removeLongChain(this, i - 3), which only copes with what is left being
   * at most 3.  Every removal at chain index 7 or more throws.
   */
  function RemoveAtAsWritten<E>(n: Node<E>, i: nat): (r: Option<Node<E>>)
    requires Packed(n) && i + 1 < |Flatten(n)|
    ensures r.Some? <==> i < 7
    ensures r.Some? ==> r.value == RemoveAt(n, i)
  {
    PackedLength(n);
    PackedShape(n);
    if i > 3 then
      RemoveLongChainAsWritten(n, i - 3)
    else if i < 3 then
      Some(RemoveField(n, i))
    else if n.three.Next? then
      RemoveLongChainAsWritten(n, 0)
    else
      Some(n.(three := NoTail))
  }

  /** A chain of nine elements 0 to 8 over three full nodes, as nine colliding adds build it. */
  function NineChain(): Node<int>
  {
    Node(Elem(Val(0)), Elem(Val(1)), Elem(Val(2)), Next(
      Node(Elem(Val(3)), Elem(Val(4)), Elem(Val(5)), Next(
        Node(Elem(Val(6)), Elem(Val(7)), Elem(Val(8)), NoTail)))))
  }

  /**
   * The iterator's remove after the eighth `next` over that chain asks for
   * remove(7): as written it throws, while the corrected removal takes out
   * element 7 and moves element 8 into its place.
   */
  lemma IteratorRemoveAtSeven()
    ensures Packed(NineChain()) && |Flatten(NineChain())| == 9
    ensures RemoveAtAsWritten(NineChain(), 7) == None
    ensures Flatten(RemoveAt(NineChain(), 7)) == [Val(0), Val(1), Val(2), Val(3), Val(4), Val(5), Val(6), Val(8)]
  {
    var n := NineChain();
    var keys := [Val(0), Val(1), Val(2), Val(3), Val(4), Val(5), Val(6), Val(7), Val(8)];
    assert Flatten(n.three.next.three.next) == keys[6..];
    assert Flatten(n.three.next) == keys[3..];
    assert Flatten(n) == keys;
  }

  /** What chainedPut's two splitting paths store: the raw reference, so a null key leaves the field null. */
  function RawField<E>(key: Key<E>): (f: Field<E>)
    ensures f.Empty? <==> key.NullKey?
    ensures f.Elem? ==> f.k == key
  {
    if key.NullKey? then Empty else Elem(key)
  }

  /**
   * chainedPut's scan of an existing chain as written: like chainedAdd's,
   * except that splitting a final `three` element stores `key` raw.
   */
  function ChainPutAsWritten<E>(eq: (E, E) -> bool, n: Node<E>, key: Key<E>): (r: Insertion<E>)
    requires Packed(n)
    ensures key.Val? ==> r == ChainAdd(eq, n, key)
    decreases n
  {
    if Match(eq, n.zero.k, key) then Present(n.zero.k)
    else if n.one.Empty? then Added(n.(one := Elem(key)))
    else if Match(eq, n.one.k, key) then Present(n.one.k)
    else if n.two.Empty? then Added(n.(two := Elem(key)))
    else if Match(eq, n.two.k, key) then Present(n.two.k)
    else
      match n.three
      case Next(m) =>
        (match ChainPutAsWritten(eq, m, key)
         case Present(s) => Present(s)
         case Added(m') => Added(n.(three := Next(m'))))
      case NoTail => Added(n.(three := Last(key)))
      case Last(k) =>
        if Match(eq, k, key) then Present(k)
        else Added(n.(three := Next(Node(Elem(k), RawField(key), Empty, NoTail))))
  }

  /**
   * chainedPut as written: a single stored element and `key` become a new
   * ChainedBucket with `key` stored raw.  For every key but null it is
   * chainedAdd's slot.
   */
  function ChainedPutSlotAsWritten<E>(eq: (E, E) -> bool, s: Slot<E>, key: Key<E>): (r: SlotInsertion<E>)
    requires s.Single? || (s.Bucket? && Packed(s.head))
    ensures key.Val? ==> r == ChainedSlot(eq, s, key)
  {
    if s.Single? then
      Extended(Bucket(Node(Elem(s.k), RawField(key), Empty, NoTail)))
    else
      match ChainPutAsWritten(eq, s.head, key)
      case Present(stored) => Found(stored)
      case Added(node) => Extended(Bucket(node))
  }

  /**
   * put(null) on a slot holding one other element: as written the slot
   * still holds only that element, so null is not a member although put
   * answered null as stored and counted one more element; the corrected
   * slot holds both.
   */
  lemma PutNullLost<E>(eq: (E, E) -> bool, e: E)
    ensures var r := ChainedPutSlotAsWritten(eq, Single(Val(e)), NullKey);
      && r.Extended?
      && SlotKeys(r.slot) == [Val(e)]
      && !InSeq(eq, SlotKeys(r.slot), NullKey)
    ensures var r := ChainedSlot(eq, Single(Val(e)), NullKey);
      && r.Extended?
      && SlotKeys(r.slot) == [Val(e), NullKey]
  {
    var r := ChainedPutSlotAsWritten(eq, Single(Val(e)), NullKey);
    assert SlotKeys(r.slot) == [Val(e)];
    assert !Match(eq, Val(e), NullKey);
  }
}
