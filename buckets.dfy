/**
 * ChainedBucket: a node of four fields.  `zero`, `one` and `two` hold an
 * element or nothing; `three` holds nothing, a final element, or the next
 * node.  A chain is modelled as a value: changing a bucket in place is
 * modelled by building the changed chain and storing it back in its slot.
 */
module Buckets {
  import opened Keys

  /** One of the fields zero/one/two: Java null or a stored element. */
  datatype Field<E> = Empty | Elem(k: Key<E>)

  /** The field `three`: null, a final element, or the next ChainedBucket. */
  datatype Tail<E> = NoTail | Last(k: Key<E>) | Next(next: Node<E>)

  datatype Node<E> = Node(zero: Field<E>, one: Field<E>, two: Field<E>, three: Tail<E>)

  function FieldKeys<E>(f: Field<E>): seq<Key<E>>
  {
    if f.Elem? then [f.k] else []
  }

  /** The elements of a chain in traversal order (chainedForEach). */
  function Flatten<E>(n: Node<E>): seq<Key<E>>
    decreases n
  {
    FieldKeys(n.zero) + FieldKeys(n.one) + FieldKeys(n.two) +
    match n.three
    case NoTail => []
    case Last(k) => [k]
    case Next(m) => Flatten(m)
  }

  /**
   * The packing invariant: fields fill low to high, `zero` is never empty,
   * and a node continues only after its first three fields are full.
   */
  ghost predicate Packed<E>(n: Node<E>)
    decreases n
  {
    && n.zero.Elem?
    && (n.one.Empty? ==> n.two.Empty?)
    && (n.two.Empty? ==> n.three.NoTail?)
    && (n.three.Next? ==> Packed(n.three.next))
  }

  lemma PackedShape<E>(n: Node<E>)
    requires Packed(n)
    ensures |Flatten(n)| >= 1 && Flatten(n)[0] == n.zero.k
    ensures n.three.Next? ==> Flatten(n) == [n.zero.k, n.one.k, n.two.k] + Flatten(n.three.next)
    ensures n.three.Last? ==> Flatten(n) == [n.zero.k, n.one.k, n.two.k, n.three.k]
    ensures n.three.NoTail? && n.two.Elem? ==> Flatten(n) == [n.zero.k, n.one.k, n.two.k]
    ensures n.two.Empty? && n.one.Elem? ==> Flatten(n) == [n.zero.k, n.one.k]
    ensures n.one.Empty? ==> Flatten(n) == [n.zero.k]
  {
  }

  /** The elements held in a node's own fields, `three` included when it is an element. */
  function OwnKeys<E>(n: Node<E>): seq<Key<E>>
  {
    FieldKeys(n.zero) + FieldKeys(n.one) + FieldKeys(n.two) + (if n.three.Last? then [n.three.k] else [])
  }

  lemma FlattenOwn<E>(n: Node<E>)
    ensures Flatten(n) == OwnKeys(n) + (if n.three.Next? then Flatten(n.three.next) else [])
  {
  }

  lemma FlattenNext<E>(n: Node<E>)
    requires n.three.Next?
    ensures Flatten(n) == OwnKeys(n) + Flatten(n.three.next)
  {
  }

  lemma FlattenEnd<E>(n: Node<E>)
    requires !n.three.Next?
    ensures Flatten(n) == OwnKeys(n)
  {
  }

  /** Where the scan of a packed node stops for `key`. */
  lemma NodePosition<E>(eq: (E, E) -> bool, n: Node<E>, key: Key<E>)
    requires Packed(n)
    ensures Position(eq, Flatten(n), key) ==
      if Match(eq, n.zero.k, key) then 0
      else if n.one.Empty? then 1
      else if Match(eq, n.one.k, key) then 1
      else if n.two.Empty? then 2
      else if Match(eq, n.two.k, key) then 2
      else if n.three.NoTail? then 3
      else if n.three.Last? then (if Match(eq, n.three.k, key) then 3 else 4)
      else 3 + Position(eq, Flatten(n.three.next), key)
  {
    PackedShape(n);
    var s := Flatten(n);
    if Match(eq, n.zero.k, key) {
      PositionIs(eq, s, key, 0);
    } else if n.one.Empty? {
      PositionIs(eq, s, key, 1);
    } else if Match(eq, n.one.k, key) {
      PositionIs(eq, s, key, 1);
    } else if n.two.Empty? {
      PositionIs(eq, s, key, 2);
    } else if Match(eq, n.two.k, key) {
      PositionIs(eq, s, key, 2);
    } else {
      match n.three
      case NoTail =>
        PositionIs(eq, s, key, 3);
      case Last(k) =>
        PositionIs(eq, s, key, if Match(eq, k, key) then 3 else 4);
      case Next(m) =>
        PositionAppend(eq, [n.zero.k, n.one.k, n.two.k], Flatten(m), key);
        PositionIs(eq, [n.zero.k, n.one.k, n.two.k], key, 3);
    }
  }

  lemma {:induction false} PackedLength<E>(n: Node<E>)
    requires Packed(n)
    ensures |Flatten(n)| >= 1
    ensures n.three.Next? ==> |Flatten(n)| >= 4
  {
    if n.three.Next? {
      PackedLength(n.three.next);
    }
  }

  /**
   * The scan shared by chainContains, chainedGet and addIfFoundFromChain:
   * walk the nodes until an empty field or a match.
   */
  method ChainLookup<E>(eq: (E, E) -> bool, head: Node<E>, key: Key<E>) returns (r: Option<Key<E>>)
    requires Packed(head)
    ensures r == Lookup(eq, Flatten(head), key)
  {
    var bucket := head;
    while true
      invariant Packed(bucket)
      invariant Lookup(eq, Flatten(head), key) == Lookup(eq, Flatten(bucket), key)
      decreases bucket
    {
      PackedShape(bucket);
      NodePosition(eq, bucket, key);
      if Match(eq, bucket.zero.k, key) {
        return Some(bucket.zero.k);
      }
      if bucket.one.Empty? {
        return None;
      }
      if Match(eq, bucket.one.k, key) {
        return Some(bucket.one.k);
      }
      if bucket.two.Empty? {
        return None;
      }
      if Match(eq, bucket.two.k, key) {
        return Some(bucket.two.k);
      }
      match bucket.three
      case NoTail =>
        return None;
      case Next(m) =>
        LookupAppend(eq, [bucket.zero.k, bucket.one.k, bucket.two.k], Flatten(m), key);
        bucket := m;
      case Last(k) =>
        return if Match(eq, k, key) then Some(k) else None;
    }
  }

  /** chainedForEach: the elements of a chain, node by node, in order. */
  method ChainKeys<E>(head: Node<E>) returns (ks: seq<Key<E>>)
    ensures ks == Flatten(head)
  {
    ks := [];
    var bucket := head;
    while bucket.three.Next?
      invariant ks + Flatten(bucket) == Flatten(head)
      decreases bucket
    {
      KeysStepNext(bucket, ks, Flatten(head));
      ks := ks + OwnKeys(bucket);
      bucket := bucket.three.next;
    }
    KeysStepEnd(bucket, ks, Flatten(head));
    ks := ks + OwnKeys(bucket);
  }

  lemma KeysStepNext<E>(b: Node<E>, ks: seq<Key<E>>, all: seq<Key<E>>)
    requires ks + Flatten(b) == all && b.three.Next?
    ensures (ks + OwnKeys(b)) + Flatten(b.three.next) == all
  {
    FlattenNext(b);
  }

  lemma KeysStepEnd<E>(b: Node<E>, ks: seq<Key<E>>, all: seq<Key<E>>)
    requires ks + Flatten(b) == all && !b.three.Next?
    ensures ks + OwnKeys(b) == all
  {
    FlattenEnd(b);
  }

  /** What the insertion scan of chainedAdd / chainedPut finds. */
  datatype Insertion<E> = Present(stored: Key<E>) | Added(node: Node<E>)

  /**
   * chainedAdd / chainedPut on an existing chain: return the stored equal
   * element, or store the key in the first empty field, splitting a final
   * `three` element into a new two-element node when the chain is full.
   */
  function ChainAdd<E>(eq: (E, E) -> bool, n: Node<E>, key: Key<E>): (r: Insertion<E>)
    requires Packed(n)
    ensures r.Present? <==> InSeq(eq, Flatten(n), key)
    ensures r.Present? ==> Lookup(eq, Flatten(n), key) == Some(r.stored)
    ensures r.Added? ==> Packed(r.node) && Flatten(r.node) == Flatten(n) + [key]
    decreases n
  {
    PackedShape(n);
    NodePosition(eq, n, key);
    if Match(eq, n.zero.k, key) then Present(n.zero.k)
    else if n.one.Empty? then Added(n.(one := Elem(key)))
    else if Match(eq, n.one.k, key) then Present(n.one.k)
    else if n.two.Empty? then Added(n.(two := Elem(key)))
    else if Match(eq, n.two.k, key) then Present(n.two.k)
    else
      match n.three
      case Next(m) =>
        LookupAppend(eq, [n.zero.k, n.one.k, n.two.k], Flatten(m), key);
        (match ChainAdd(eq, m, key)
         case Present(s) => Present(s)
         case Added(m') => Added(n.(three := Next(m'))))
      case NoTail => Added(n.(three := Last(key)))
      case Last(k) =>
        if Match(eq, k, key) then Present(k)
        else Added(n.(three := Next(Node(Elem(k), Elem(key), Empty, NoTail))))
  }

  /**
   * removeLast(ChainedBucket oldBucket): walk to the final node, clear its
   * last element and return it; a final node left empty is detached from
   * its parent's `three`.
   */
  function RemoveLastDeep<E>(n: Node<E>): (r: (Node<E>, Key<E>))
    requires Packed(n) && n.three.Next?
    ensures Packed(r.0) && !r.0.three.Last?
    ensures r.0.zero == n.zero && r.0.one == n.one && r.0.two == n.two
    ensures Flatten(n) == Flatten(r.0) + [r.1]
    decreases n
  {
    var b := n.three.next;
    PackedShape(n);
    PackedShape(b);
    match b.three
    case Next(_) =>
      var (b', k) := RemoveLastDeep(b);
      PackedShape(b');
      (n.(three := Next(b')), k)
    case Last(k) => (n.(three := Next(b.(three := NoTail))), k)
    case NoTail =>
      if b.two.Elem? then (n.(three := Next(b.(two := Empty))), b.two.k)
      else if b.one.Elem? then (n.(three := Next(b.(one := Empty))), b.one.k)
      else (n.(three := NoTail), b.zero.k)
  }

  /**
   * removeLast(int cur): clear the chain's last element and return the value
   * to store in field `cur` — that element, or null when it was field `cur`
   * itself.
   */
  function RemoveLast<E>(n: Node<E>, cur: nat): (r: (Node<E>, Field<E>))
    requires Packed(n) && cur <= 3 && cur < |Flatten(n)|
    requires cur == 3 ==> !n.three.Next?
    ensures var s := Flatten(n);
      && Flatten(r.0) == s[..|s| - 1]
      && r.1 == (if cur == |s| - 1 then Empty else Elem(s[|s| - 1]))
    ensures |Flatten(n)| > 1 ==> Packed(r.0)
    ensures |Flatten(n)| == 1 ==> r.0.zero.Empty? && r.0.one.Empty? && r.0.two.Empty? && r.0.three.NoTail?
  {
    PackedShape(n);
    PackedLength(n);
    match n.three
    case Next(_) =>
      var (n', k) := RemoveLastDeep(n);
      (n', Elem(k))
    case Last(k) => (n.(three := NoTail), if cur == 3 then Empty else Elem(k))
    case NoTail =>
      if n.two.Elem? then (n.(two := Empty), if cur == 2 then Empty else n.two)
      else if n.one.Elem? then (n.(one := Empty), if cur == 1 then Empty else n.one)
      else (n.(zero := Empty), Empty)
  }

  /** Store `v` in field `j` (0 to 3) of a node. */
  function SetField<E>(n: Node<E>, j: nat, v: Field<E>): Node<E>
    requires j <= 3
  {
    if j == 0 then n.(zero := v)
    else if j == 1 then n.(one := v)
    else if j == 2 then n.(two := v)
    else n.(three := if v.Elem? then Last(v.k) else NoTail)
  }

  /**
   * `bucket.field_j = bucket.removeLast(j)`: the removal idiom used at every
   * removal site.  The chain loses exactly its element `j`, the last element
   * taking its place, and stays packed unless it becomes empty.
   */
  function RemoveField<E>(n: Node<E>, j: nat): (r: Node<E>)
    requires Packed(n) && j <= 3 && j < |Flatten(n)|
    requires j == 3 ==> n.three.Last?
    ensures Flatten(r) == Drop(Flatten(n), j)
    ensures |Flatten(n)| > 1 ==> Packed(r)
    ensures |Flatten(n)| == 1 ==> r.zero.Empty?
  {
    PackedShape(n);
    PackedLength(n);
    var (n', v) := RemoveLast(n, j);
    var r := SetField(n', j, v);
    RemoveFieldFlatten(n, j, n', v);
    r
  }

  lemma RemoveFieldFlatten<E>(n: Node<E>, j: nat, n': Node<E>, v: Field<E>)
    requires Packed(n) && j <= 3 && j < |Flatten(n)|
    requires j == 3 ==> n.three.Last?
    requires (n', v) == RemoveLast(n, j)
    ensures Flatten(SetField(n', j, v)) == Drop(Flatten(n), j)
  {
    if n.three.Next? {
      RemoveFieldDeep(n, j, n', v.k);
    } else {
      RemoveFieldNear(n, j, n', v);
    }
  }

  /** Within a single final node the last field moves into field `j`. */
  lemma RemoveFieldNear<E>(n: Node<E>, j: nat, n': Node<E>, v: Field<E>)
    requires Packed(n) && !n.three.Next? && j < |Flatten(n)|
    requires (n', v) == RemoveLast(n, j)
    ensures Flatten(SetField(n', j, v)) == Drop(Flatten(n), j)
  {
    if n.three.Last? {
      RemoveFromFour(n, j);
    } else if n.two.Elem? {
      RemoveFromThree(n, j);
    } else if n.one.Elem? {
      RemoveFromTwo(n, j);
    } else {
      FlattenEnd(n);
    }
  }

  lemma RemoveFromFour<E>(n: Node<E>, j: nat)
    requires n.zero.Elem? && n.one.Elem? && n.two.Elem? && n.three.Last? && j <= 3
    ensures Flatten(SetField(n.(three := NoTail), j, if j == 3 then Empty else Elem(n.three.k))) == Drop(Flatten(n), j)
  {
    FlattenEnd(n);
    FlattenEnd(SetField(n.(three := NoTail), j, if j == 3 then Empty else Elem(n.three.k)));
  }

  lemma RemoveFromThree<E>(n: Node<E>, j: nat)
    requires n.zero.Elem? && n.one.Elem? && n.two.Elem? && n.three.NoTail? && j <= 2
    ensures Flatten(SetField(n.(two := Empty), j, if j == 2 then Empty else n.two)) == Drop(Flatten(n), j)
  {
    FlattenEnd(n);
    FlattenEnd(SetField(n.(two := Empty), j, if j == 2 then Empty else n.two));
  }

  lemma RemoveFromTwo<E>(n: Node<E>, j: nat)
    requires n.zero.Elem? && n.one.Elem? && n.two.Empty? && n.three.NoTail? && j <= 1
    ensures Flatten(SetField(n.(one := Empty), j, if j == 1 then Empty else n.one)) == Drop(Flatten(n), j)
  {
    FlattenEnd(n);
    FlattenEnd(SetField(n.(one := Empty), j, if j == 1 then Empty else n.one));
  }

  /** The last element comes from a later node and fills field `j`. */
  lemma RemoveFieldDeep<E>(n: Node<E>, j: nat, n': Node<E>, k: Key<E>)
    requires Packed(n) && n.three.Next? && j < 3
    requires !n'.three.Last? && n'.zero == n.zero && n'.one == n.one && n'.two == n.two
    requires Flatten(n) == Flatten(n') + [k]
    ensures Flatten(SetField(n', j, Elem(k))) == Drop(Flatten(n), j)
  {
    FlattenFullHead(n');
    FlattenSetHead(n', j, k);
    var t := if n'.three.Next? then Flatten(n'.three.next) else [];
    DropIntoPlace([n.zero.k, n.one.k, n.two.k], t, k, j);
  }

  lemma FlattenFullHead<E>(n: Node<E>)
    requires n.zero.Elem? && n.one.Elem? && n.two.Elem? && !n.three.Last?
    ensures Flatten(n) == [n.zero.k, n.one.k, n.two.k] + (if n.three.Next? then Flatten(n.three.next) else [])
  {
    FlattenOwn(n);
  }

  lemma FlattenSetHead<E>(n: Node<E>, j: nat, k: Key<E>)
    requires j < 3 && n.zero.Elem? && n.one.Elem? && n.two.Elem? && !n.three.Last?
    ensures Flatten(SetField(n, j, Elem(k)))
         == [n.zero.k, n.one.k, n.two.k][j := k] + (if n.three.Next? then Flatten(n.three.next) else [])
  {
    FlattenOwn(SetField(n, j, Elem(k)));
  }

  /** Dropping place `j` of the head moves the final element into it. */
  lemma DropIntoPlace<E>(a: seq<Key<E>>, t: seq<Key<E>>, k: Key<E>, j: nat)
    requires j < |a|
    ensures Drop(a + t + [k], j) == a[j := k] + t
  {
    var d := Drop(a + t + [k], j);
    forall i | 0 <= i < |d|
      ensures d[i] == (a[j := k] + t)[i]
    {
    }
  }

  /** Drop inside a chain's tail, seen from the whole chain. */
  lemma DropAppend<E>(a: seq<Key<E>>, t: seq<Key<E>>, p: nat)
    requires p < |t|
    ensures Drop(a + t, |a| + p) == a + Drop(t, p)
  {
    var s := a + t;
    var n := |s|;
    assert s[..|a| + p] == a + t[..p];
    if p < |t| - 1 {
      assert s[|a| + p + 1..n - 1] == t[p + 1..|t| - 1];
    }
  }

  /**
   * removeFromChain / removeFromChainForPool: find the key in the chain
   * rooted at a slot and remove it with the packing rule.  Returns the new
   * chain and the stored element removed, if any.
   */
  function RemoveFromChain<E>(eq: (E, E) -> bool, n: Node<E>, key: Key<E>): (r: (Node<E>, Option<Key<E>>))
    requires Packed(n)
    ensures r.1 == Lookup(eq, Flatten(n), key)
    ensures r.1.None? ==> r.0 == n
    ensures r.1.Some? ==>
      && Flatten(r.0) == Drop(Flatten(n), Position(eq, Flatten(n), key))
      && (|Flatten(n)| > 1 ==> Packed(r.0))
      && (|Flatten(n)| == 1 ==> r.0.zero.Empty?)
    decreases n, 1
  {
    PackedShape(n);
    PackedLength(n);
    NodePosition(eq, n, key);
    if Match(eq, n.zero.k, key) then (RemoveField(n, 0), Some(n.zero.k))
    else if n.one.Empty? then (n, None)
    else if Match(eq, n.one.k, key) then (RemoveField(n, 1), Some(n.one.k))
    else if n.two.Empty? then (n, None)
    else if Match(eq, n.two.k, key) then (RemoveField(n, 2), Some(n.two.k))
    else
      match n.three
      case NoTail => (n, None)
      case Next(m) =>
        var a := [n.zero.k, n.one.k, n.two.k];
        PositionAppend(eq, a, Flatten(m), key);
        LookupAppend(eq, a, Flatten(m), key);
        var r := RemoveDeepChain(eq, n, key);
        assert r.1.Some? ==> Flatten(r.0) == Drop(Flatten(n), Position(eq, Flatten(n), key)) by {
          if r.1.Some? {
            DropAppend(a, Flatten(m), Position(eq, Flatten(m), key));
          }
        }
        r
      case Last(k) =>
        if Match(eq, k, key) then (RemoveField(n, 3), Some(k)) else (n, None)
  }

  /**
   * removeDeepChain / removeDeepChainForPool: the same search in the nodes
   * after `parent`; a node whose `zero` becomes empty is detached from `parent`.
   */
  function RemoveDeepChain<E>(eq: (E, E) -> bool, parent: Node<E>, key: Key<E>): (r: (Node<E>, Option<Key<E>>))
    requires Packed(parent) && parent.three.Next?
    ensures var t := Flatten(parent.three.next);
      && r.1 == Lookup(eq, t, key)
      && (r.1.None? ==> r.0 == parent)
      && (r.1.Some? ==>
            Packed(r.0) && Flatten(r.0) == [parent.zero.k, parent.one.k, parent.two.k] + Drop(t, Position(eq, t, key)))
    decreases parent, 0
  {
    var b := parent.three.next;
    var (b', res) := RemoveFromChain(eq, b, key);
    if res.None? then (parent, None)
    else if b'.zero.Empty? then
      PackedLength(b);
      FlattenFullHead(parent.(three := NoTail));
      (parent.(three := NoTail), res)
    else
      PackedLength(b);
      FlattenFullHead(parent.(three := Next(b')));
      (parent.(three := Next(b')), res)
  }

  /**
   * ChainedBucket.get(i): the field at chain index `i`; index |chain|
   * (one past the last element) gives null, which is how iteration detects
   * the end of a chain that exactly fills its nodes.
   */
  method At<E>(head: Node<E>, i: nat) returns (f: Field<E>)
    requires Packed(head) && i <= |Flatten(head)|
    ensures f == if i < |Flatten(head)| then Elem(Flatten(head)[i]) else Empty
  {
    var bucket := head;
    var j: nat := i;
    while j > 3 && bucket.three.Next?
      invariant Packed(bucket) && SuffixAt(head, bucket, i, j)
      decreases bucket
    {
      SkipNode(head, bucket, i, j);
      bucket := bucket.three.next;
      j := j - 3;
    }
    if j == 3 && bucket.three.Next? {
      SkipNode(head, bucket, i, j);
      bucket := bucket.three.next;
      j := 0;
    }
    AtNode(head, bucket, i, j);
    if j == 0 {
      f := bucket.zero;
    } else if j == 1 {
      f := bucket.one;
    } else if j == 2 {
      f := bucket.two;
    } else if j == 3 {
      f := if bucket.three.Last? then Elem(bucket.three.k) else Empty;
    } else {
      f := Empty;
    }
  }

  /** Chain index `i` of `head` is index `j` of the node `bucket` it leads to. */
  ghost predicate SuffixAt<E>(head: Node<E>, bucket: Node<E>, i: nat, j: nat)
  {
    && j <= i
    && j <= |Flatten(bucket)|
    && i - j + |Flatten(bucket)| == |Flatten(head)|
    && Flatten(head)[i - j..] == Flatten(bucket)
  }

  /** Moving from a node to its successor skips that node's three fields. */
  lemma SkipNode<E>(head: Node<E>, bucket: Node<E>, i: nat, j: nat)
    requires Packed(bucket) && bucket.three.Next? && 3 <= j
    requires SuffixAt(head, bucket, i, j)
    ensures Packed(bucket.three.next) && SuffixAt(head, bucket.three.next, i, j - 3)
  {
    var m := bucket.three.next;
    FlattenNext(bucket);
    assert OwnKeys(bucket) == [bucket.zero.k, bucket.one.k, bucket.two.k];
    assert Flatten(head)[i - (j - 3)..] == Flatten(head)[i - j..][3..];
  }

  /** Within the node reached, index `j` names one of its own fields. */
  lemma AtNode<E>(head: Node<E>, bucket: Node<E>, i: nat, j: nat)
    requires Packed(bucket) && SuffixAt(head, bucket, i, j)
    requires j >= 3 ==> !bucket.three.Next?
    ensures var want := if i < |Flatten(head)| then Elem(Flatten(head)[i]) else Empty;
      && (j == 0 ==> bucket.zero == want)
      && (j == 1 ==> bucket.one == want)
      && (j == 2 ==> bucket.two == want)
      && (j == 3 ==> want == if bucket.three.Last? then Elem(bucket.three.k) else Empty)
      && (j > 3 ==> want == Empty)
  {
    PackedShape(bucket);
    if !bucket.three.Next? {
      FlattenEnd(bucket);
    }
  }

  /**
   * ChainedBucket.remove(i), as the iterator uses it: remove the element at
   * chain index `i`, which is never the chain's last, moving the last
   * element into its place.  Indexes past this node are handed to
   * RemoveLongChain.
   */
  function RemoveAt<E>(n: Node<E>, i: nat): (r: Node<E>)
    requires Packed(n) && i + 1 < |Flatten(n)|
    ensures Packed(r)
    ensures Flatten(r) == Drop(Flatten(n), i)
  {
    PackedLength(n);
    PackedShape(n);
    if i > 3 then
      RemoveTail(n, i)
    else if i < 3 then
      RemoveField(n, i)
    else if n.three.Next? then
      RemoveTail(n, i)
    else
      n.(three := NoTail)
  }

  /** `removeLongChain(this, i - 3)`, seen from the whole chain. */
  function RemoveTail<E>(n: Node<E>, i: nat): (r: Node<E>)
    requires Packed(n) && n.three.Next? && 3 <= i && i + 1 < |Flatten(n)|
    ensures Packed(r)
    ensures Flatten(r) == Drop(Flatten(n), i)
    decreases n, 1
  {
    var a := [n.zero.k, n.one.k, n.two.k];
    var t := Flatten(n.three.next);
    FlattenFullHead(n);
    DropAppend(a, t, i - 3);
    RemoveLongChain(n, i - 3)
  }

  /**
   * removeLongChain(oldBucket, i): remove index `i` of the chain after
   * `parent`.  Index 3 of a node that continues is index 0 of the next node,
   * and so is every larger index, three places further on per node.
   */
  function RemoveLongChain<E>(parent: Node<E>, i: nat): (r: Node<E>)
    requires Packed(parent) && parent.three.Next? && i + 1 < |Flatten(parent.three.next)|
    ensures Packed(r)
    ensures Flatten(r) == [parent.zero.k, parent.one.k, parent.two.k] + Drop(Flatten(parent.three.next), i)
    decreases parent, 0
  {
    var b := parent.three.next;
    PackedLength(b);
    PackedShape(b);
    if i < 3 then
      var b' := RemoveField(b, i);
      FlattenFullHead(parent.(three := Next(b')));
      parent.(three := Next(b'))
    else if b.three.Next? then
      var b' := RemoveTail(b, i);
      FlattenFullHead(parent.(three := Next(b')));
      parent.(three := Next(b'))
    else
      parent.(three := Next(b.(three := NoTail)))
  }
}
