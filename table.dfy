/**
 * Table slots and the placement invariant: every stored key sits in the slot
 * its mixed hash selects, and no two stored keys are strategy-equal.
 */
module Table {
  import opened Keys
  import opened Sizing
  import opened Buckets

  /** A table slot: null, a single stored key, or a chain of buckets. */
  datatype Slot<E> = Vacant | Single(k: Key<E>) | Bucket(head: Node<E>)

  function SlotKeys<E>(s: Slot<E>): seq<Key<E>>
  {
    match s
    case Vacant => []
    case Single(k) => [k]
    case Bucket(head) => Flatten(head)
  }

  /** What chainedAdd / chainedPut find in a slot: the stored equal element, or the slot extended by the key. */
  datatype SlotInsertion<E> = Found(stored: Key<E>) | Extended(slot: Slot<E>)

  /**
   * The slot chainedAdd / chainedPut leave behind: `key` appended to the
   * chain, or the single stored key and `key` as a new two-element chain.
   * Found when the chain already holds a key equal to `key`.
   */
  function ChainedSlot<E>(eq: (E, E) -> bool, s: Slot<E>, key: Key<E>): (r: SlotInsertion<E>)
    requires s.Single? || (s.Bucket? && Packed(s.head))
    ensures r.Found? <==> s.Bucket? && InSeq(eq, SlotKeys(s), key)
    ensures r.Found? ==> Lookup(eq, SlotKeys(s), key) == Some(r.stored)
    ensures r.Extended? ==> r.slot.Bucket? && Packed(r.slot.head) && SlotKeys(r.slot) == SlotKeys(s) + [key]
  {
    if s.Single? then
      Extended(Bucket(Node(Elem(s.k), Elem(key), Empty, NoTail)))
    else
      match ChainAdd(eq, s.head, key)
      case Present(stored) => Found(stored)
      case Added(node) => Extended(Bucket(node))
  }

  /** The stored keys of a run of slots, slot by slot (the iteration order). */
  function Flat<E>(t: seq<Slot<E>>): seq<Key<E>>
  {
    if |t| == 0 then [] else Flat(t[..|t| - 1]) + SlotKeys(t[|t| - 1])
  }

  lemma FlatStep<E>(t: seq<Slot<E>>, i: nat)
    requires i < |t|
    ensures Flat(t[..i + 1]) == Flat(t[..i]) + SlotKeys(t[i])
  {
    assert t[..i + 1][..i] == t[..i];
  }

  lemma FlatAll<E>(t: seq<Slot<E>>)
    ensures Flat(t[..|t|]) == Flat(t)
  {
    assert t[..|t|] == t;
  }

  lemma {:induction false} FlatAppend<E>(a: seq<Slot<E>>, b: seq<Slot<E>>)
    ensures Flat(a + b) == Flat(a) + Flat(b)
    decreases |b|
  {
    if |b| == 0 {
      assert a + b == a;
    } else {
      FlatAppend(a, b[..|b| - 1]);
      FlatAppendStep(a, b);
    }
  }

  lemma FlatAppendStep<E>(a: seq<Slot<E>>, b: seq<Slot<E>>)
    requires |b| > 0
    requires Flat(a + b[..|b| - 1]) == Flat(a) + Flat(b[..|b| - 1])
    ensures Flat(a + b) == Flat(a) + Flat(b)
  {
    var init := b[..|b| - 1];
    var last := SlotKeys(b[|b| - 1]);
    assert Flat(a + b) == Flat(a + init) + last by {
      AppendInit(a, b);
      FlatLast(a + b);
    }
    assert Flat(b) == Flat(init) + last by {
      FlatLast(b);
    }
    ConcatStep(Flat(a + b), Flat(a), Flat(init), last, Flat(b), Flat(a + init));
  }

  lemma ConcatStep<T>(ab: seq<T>, a: seq<T>, i: seq<T>, l: seq<T>, b: seq<T>, ai: seq<T>)
    requires ab == ai + l && ai == a + i && b == i + l
    ensures ab == a + b
  {
  }

  lemma AppendInit<T>(a: seq<T>, b: seq<T>)
    requires |b| > 0
    ensures (a + b)[..|a + b| - 1] == a + b[..|b| - 1]
    ensures (a + b)[|a + b| - 1] == b[|b| - 1]
  {
  }

  lemma FlatLast<E>(t: seq<Slot<E>>)
    requires |t| > 0
    ensures Flat(t) == Flat(t[..|t| - 1]) + SlotKeys(t[|t| - 1])
  {
  }

  /** The stored keys around one slot. */
  lemma FlatAround<E>(t: seq<Slot<E>>, i: nat)
    requires i < |t|
    ensures Flat(t) == Flat(t[..i]) + SlotKeys(t[i]) + Flat(t[i + 1..])
  {
    assert t == t[..i + 1] + t[i + 1..];
    FlatAppend(t[..i + 1], t[i + 1..]);
    FlatStep(t, i);
  }

  lemma FlatUpdate<E>(t: seq<Slot<E>>, i: nat, s: Slot<E>)
    requires i < |t|
    ensures Flat(t[i := s]) == Flat(t[..i]) + SlotKeys(s) + Flat(t[i + 1..])
  {
    var u := t[i := s];
    FlatAround(u, i);
    assert u[..i] == t[..i];
    assert u[i + 1..] == t[i + 1..];
  }

  lemma {:induction false} FlatVacant<E>(t: seq<Slot<E>>)
    requires forall i :: 0 <= i < |t| ==> t[i] == Vacant
    ensures Flat(t) == []
    decreases |t|
  {
    if |t| > 0 {
      FlatVacant(t[..|t| - 1]);
    }
  }

  /** Each key of `Flat(t)` comes from one slot of `t`. */
  lemma {:induction false} FlatMember<E>(t: seq<Slot<E>>, p: nat) returns (j: nat)
    requires p < |Flat(t)|
    ensures j < |t| && Flat(t)[p] in SlotKeys(t[j])
    decreases |t|
  {
    var init := t[..|t| - 1];
    if p < |Flat(init)| {
      j := FlatMember(init, p);
    } else {
      j := |t| - 1;
      assert Flat(t)[p] == SlotKeys(t[j])[p - |Flat(init)|];
    }
  }

  ghost predicate SlotOk<E>(hash: Key<E> -> Int32, eq: (E, E) -> bool, s: Slot<E>, i: nat, len: nat)
    requires IsPow2(len)
  {
    && (s.Bucket? ==> Packed(s.head))
    && Distinct(eq, SlotKeys(s))
    && forall k :: k in SlotKeys(s) ==> IndexFor(hash(k), len) == i
  }

  /** The placement invariant of a whole table. */
  ghost predicate Placed<E>(hash: Key<E> -> Int32, eq: (E, E) -> bool, t: seq<Slot<E>>)
  {
    && IsPow2(|t|)
    && forall i {:trigger SlotOk(hash, eq, t[i], i, |t|)} :: 0 <= i < |t| ==> SlotOk(hash, eq, t[i], i, |t|)
  }

  /** Every chain of the table is packed, the form the iterator walks. */
  ghost predicate ChainsPacked<E>(t: seq<Slot<E>>)
  {
    forall i :: 0 <= i < |t| && t[i].Bucket? ==> Packed(t[i].head)
  }

  lemma PlacedPacked<E>(hash: Key<E> -> Int32, eq: (E, E) -> bool, t: seq<Slot<E>>)
    requires Placed(hash, eq, t)
    ensures ChainsPacked(t)
  {
    forall i | 0 <= i < |t| && t[i].Bucket?
      ensures Packed(t[i].head)
    {
      assert SlotOk(hash, eq, t[i], i, |t|);
    }
  }

  lemma PlacedUpdate<E>(hash: Key<E> -> Int32, eq: (E, E) -> bool, t: seq<Slot<E>>, i: nat, s: Slot<E>)
    requires Placed(hash, eq, t) && i < |t|
    requires SlotOk(hash, eq, s, i, |t|)
    ensures Placed(hash, eq, t[i := s])
  {
  }

  lemma PlacedVacant<E>(hash: Key<E> -> Int32, eq: (E, E) -> bool, t: seq<Slot<E>>)
    requires IsPow2(|t|)
    requires forall i :: 0 <= i < |t| ==> t[i] == Vacant
    ensures Placed(hash, eq, t)
  {
    forall i | 0 <= i < |t|
      ensures SlotOk(hash, eq, t[i], i, |t|)
    {
      assert SlotKeys(t[i]) == [];
    }
  }

  /** No key stored in a slot other than `i` matches a key whose hash selects slot `i`. */
  lemma {:induction false} NotElsewhere<E(!new)>(hash: Key<E> -> Int32, eq: (E, E) -> bool, t: seq<Slot<E>>, lo: nat, hi: nat, key: Key<E>)
    requires StrategyOk(hash, eq) && Placed(hash, eq, t)
    requires lo <= hi <= |t|
    requires !(lo <= IndexFor(hash(key), |t|) < hi)
    ensures !InSeq(eq, Flat(t[lo..hi]), key)
  {
    var u := t[lo..hi];
    if InSeq(eq, Flat(u), key) {
      var p := Position(eq, Flat(u), key);
      var j := FlatMember(u, p);
      var k := Flat(u)[p];
      assert u[j] == t[lo + j];
      assert SlotOk(hash, eq, t[lo + j], lo + j, |t|);
      assert IndexFor(hash(k), |t|) == lo + j;
      MatchSameHash(hash, eq, k, key);
    }
  }

  /** A lookup in the whole table is a lookup in the slot the key hashes to. */
  lemma LookupSlot<E(!new)>(hash: Key<E> -> Int32, eq: (E, E) -> bool, t: seq<Slot<E>>, key: Key<E>)
    requires StrategyOk(hash, eq) && Placed(hash, eq, t)
    ensures var i := IndexFor(hash(key), |t|);
      && SlotOk(hash, eq, t[i], i, |t|)
      && Lookup(eq, Flat(t), key) == Lookup(eq, SlotKeys(t[i]), key)
      && (InSeq(eq, SlotKeys(t[i]), key) ==>
            Position(eq, Flat(t), key) == |Flat(t[..i])| + Position(eq, SlotKeys(t[i]), key))
  {
    var i := IndexFor(hash(key), |t|);
    assert SlotOk(hash, eq, t[i], i, |t|);
    FlatAround(t, i);
    assert t[..i] == t[0..i];
    NotElsewhere(hash, eq, t, 0, i, key);
    assert t[i + 1..] == t[i + 1..|t|];
    NotElsewhere(hash, eq, t, i + 1, |t|, key);
    SplitLookup(eq, Flat(t[..i]), SlotKeys(t[i]), Flat(t[i + 1..]), key);
  }

  /** The lookup part of `LookupSlot` alone. */
  lemma LookupInSlot<E(!new)>(hash: Key<E> -> Int32, eq: (E, E) -> bool, t: seq<Slot<E>>, key: Key<E>)
    requires StrategyOk(hash, eq) && Placed(hash, eq, t)
    ensures var i := IndexFor(hash(key), |t|);
      && SlotOk(hash, eq, t[i], i, |t|)
      && Lookup(eq, Flat(t), key) == Lookup(eq, SlotKeys(t[i]), key)
  {
    LookupSlot(hash, eq, t, key);
  }

  lemma SplitLookup<E>(eq: (E, E) -> bool, a: seq<Key<E>>, b: seq<Key<E>>, c: seq<Key<E>>, key: Key<E>)
    requires !InSeq(eq, a, key) && !InSeq(eq, c, key)
    ensures Lookup(eq, a + b + c, key) == Lookup(eq, b, key)
    ensures InSeq(eq, b, key) ==> Position(eq, a + b + c, key) == |a| + Position(eq, b, key)
  {
    assert a + b + c == a + (b + c);
    LookupAppend(eq, a, b + c, key);
    LookupAppend(eq, b, c, key);
    PositionAppend(eq, a, b + c, key);
    PositionAppend(eq, b, c, key);
  }

  /** Every key of a placed prefix lies in a slot before `n`. */
  lemma {:induction false} PrefixPlaced<E>(hash: Key<E> -> Int32, eq: (E, E) -> bool, t: seq<Slot<E>>, n: nat, k: Key<E>)
    requires Placed(hash, eq, t) && n <= |t|
    requires k in Flat(t[..n])
    ensures IndexFor(hash(k), |t|) < n
  {
    var p :| 0 <= p < |Flat(t[..n])| && Flat(t[..n])[p] == k;
    var j := FlatMember(t[..n], p);
    assert t[..n][j] == t[j];
    assert SlotOk(hash, eq, t[j], j, |t|);
  }

  /** The placement invariant makes the stored keys of the whole table distinct. */
  lemma {:induction false} FlatDistinct<E(!new)>(hash: Key<E> -> Int32, eq: (E, E) -> bool, t: seq<Slot<E>>, n: nat)
    requires StrategyOk(hash, eq) && Placed(hash, eq, t) && n <= |t|
    ensures Distinct(eq, Flat(t[..n]))
    decreases n
  {
    if n > 0 {
      FlatDistinct(hash, eq, t, n - 1);
      FlatStep(t, n - 1);
      var a := Flat(t[..n - 1]);
      var b := SlotKeys(t[n - 1]);
      assert SlotOk(hash, eq, t[n - 1], n - 1, |t|);
      forall x, y | x in a && y in b
        ensures !Match(eq, x, y) && !Match(eq, y, x)
      {
        PrefixPlaced(hash, eq, t, n - 1, x);
        if Match(eq, x, y) {
          MatchSameHash(hash, eq, x, y);
        }
        if Match(eq, y, x) {
          MatchSameHash(hash, eq, y, x);
        }
      }
      DistinctConcat(eq, a, b);
    }
  }

  lemma DistinctConcat<E>(eq: (E, E) -> bool, a: seq<Key<E>>, b: seq<Key<E>>)
    requires Distinct(eq, a) && Distinct(eq, b)
    requires forall x, y :: x in a && y in b ==> !Match(eq, x, y) && !Match(eq, y, x)
    ensures Distinct(eq, a + b)
  {
    var c := a + b;
    forall p, q | 0 <= p < |c| && 0 <= q < |c| && p != q
      ensures !Match(eq, c[p], c[q])
    {
      if p < |a| && q >= |a| {
        assert c[p] in a && c[q] in b;
      } else if p >= |a| && q < |a| {
        assert c[q] in a && c[p] in b;
      }
    }
  }

  /** Appending a key to the slot its hash selects keeps the table placed and adds the key to the stored keys. */
  lemma InsertSlot<E(!new)>(hash: Key<E> -> Int32, eq: (E, E) -> bool, t: seq<Slot<E>>, i: nat, s: Slot<E>, key: Key<E>)
    requires StrategyOk(hash, eq) && Placed(hash, eq, t) && i < |t|
    requires i == IndexFor(hash(key), |t|)
    requires !InSeq(eq, SlotKeys(t[i]), key)
    requires SlotKeys(s) == SlotKeys(t[i]) + [key]
    requires s.Bucket? ==> Packed(s.head)
    ensures Placed(hash, eq, t[i := s])
    ensures multiset(Flat(t[i := s])) == multiset(Flat(t)) + multiset{key}
    ensures |Flat(t[i := s])| == |Flat(t)| + 1
  {
    assert SlotOk(hash, eq, t[i], i, |t|);
    DistinctAppend(hash, eq, SlotKeys(t[i]), key);
    assert SlotOk(hash, eq, s, i, |t|);
    PlacedUpdate(hash, eq, t, i, s);
    var before := Flat(t[..i]);
    var after := Flat(t[i + 1..]);
    assert Flat(t[i := s]) == before + SlotKeys(s) + after by {
      FlatUpdate(t, i, s);
    }
    assert Flat(t) == before + SlotKeys(t[i]) + after by {
      FlatAround(t, i);
    }
    MultisetGrow(before, SlotKeys(t[i]), key, after);
  }

  lemma MultisetGrow<T>(a: seq<T>, k: seq<T>, x: T, c: seq<T>)
    ensures multiset(a + (k + [x]) + c) == multiset(a + k + c) + multiset{x}
    ensures |a + (k + [x]) + c| == |a + k + c| + 1
  {
  }

  /** Dropping the key at place `p` of a slot keeps the table placed, one key shorter. */
  lemma RemoveSlot<E(!new)>(hash: Key<E> -> Int32, eq: (E, E) -> bool, t: seq<Slot<E>>, i: nat, s: Slot<E>, p: nat)
    requires Placed(hash, eq, t) && i < |t| && p < |SlotKeys(t[i])|
    requires SlotKeys(s) == Drop(SlotKeys(t[i]), p)
    requires s.Bucket? ==> Packed(s.head)
    ensures Placed(hash, eq, t[i := s])
    ensures |Flat(t[i := s])| == |Flat(t)| - 1
  {
    DropSlotOk(hash, eq, t[i], i, |t|, s, p);
    PlacedUpdate(hash, eq, t, i, s);
    RemoveSlotMultiset(t, i, s, p);
  }

  /** ... and it takes exactly that key out of the table's keys. */
  lemma RemoveSlotMultiset<E>(t: seq<Slot<E>>, i: nat, s: Slot<E>, p: nat)
    requires i < |t| && p < |SlotKeys(t[i])|
    requires SlotKeys(s) == Drop(SlotKeys(t[i]), p)
    ensures multiset(Flat(t[i := s])) == multiset(Flat(t)) - multiset{SlotKeys(t[i])[p]}
    ensures |Flat(t[i := s])| == |Flat(t)| - 1
  {
    var before := Flat(t[..i]);
    var after := Flat(t[i + 1..]);
    assert Flat(t[i := s]) == before + SlotKeys(s) + after by {
      FlatUpdate(t, i, s);
    }
    assert Flat(t) == before + SlotKeys(t[i]) + after by {
      FlatAround(t, i);
    }
    DropMultiset(SlotKeys(t[i]), p);
    MultisetSwap(before, SlotKeys(s), SlotKeys(t[i]), after, SlotKeys(t[i])[p]);
  }

  lemma MultisetSwap<T>(a: seq<T>, d: seq<T>, k: seq<T>, c: seq<T>, x: T)
    requires x in k && multiset(d) == multiset(k) - multiset{x}
    ensures multiset(a + d + c) == multiset(a + k + c) - multiset{x}
    ensures |a + d + c| == |a + k + c| - 1
  {
    assert |multiset(d)| == |multiset(k)| - 1;
  }

  lemma DropSlotOk<E>(hash: Key<E> -> Int32, eq: (E, E) -> bool, old_slot: Slot<E>, i: nat, len: nat, s: Slot<E>, p: nat)
    requires IsPow2(len) && SlotOk(hash, eq, old_slot, i, len) && p < |SlotKeys(old_slot)|
    requires SlotKeys(s) == Drop(SlotKeys(old_slot), p)
    requires s.Bucket? ==> Packed(s.head)
    ensures SlotOk(hash, eq, s, i, len)
  {
    var old_keys := SlotKeys(old_slot);
    DropDistinct(eq, old_keys, p);
    DropMultiset(old_keys, p);
    forall k | k in SlotKeys(s)
      ensures IndexFor(hash(k), len) == i
    {
      assert k in multiset(SlotKeys(s));
      assert k in old_keys;
    }
  }

  /** A placed table without stored keys has only null slots. */
  lemma FlatEmpty<E>(hash: Key<E> -> Int32, eq: (E, E) -> bool, t: seq<Slot<E>>)
    requires Placed(hash, eq, t) && |Flat(t)| == 0
    ensures forall i :: 0 <= i < |t| ==> t[i] == Vacant
  {
    forall i | 0 <= i < |t|
      ensures t[i] == Vacant
    {
      FlatAround(t, i);
      assert SlotOk(hash, eq, t[i], i, |t|);
      if t[i].Bucket? {
        PackedLength(t[i].head);
      }
    }
  }

  lemma FlatRangeStep<E>(t: seq<Slot<E>>, start: nat, i: nat)
    requires start <= i < |t|
    ensures Flat(t[start..i + 1]) == Flat(t[start..i]) + SlotKeys(t[i])
  {
    var u := t[start..i + 1];
    assert u[|u| - 1] == t[i];
    assert u[..|u| - 1] == t[start..i];
    assert Flat(u) == Flat(u[..|u| - 1]) + SlotKeys(u[|u| - 1]);
  }

  /** The slots of section `i` of `count`, as batchForEach delimits them. */
  ghost function Section<E>(t: seq<Slot<E>>, i: nat, count: nat): seq<Slot<E>>
    requires i < count
  {
    t[SectionStart(|t|, i, count)..SectionEnd(|t|, i, count)]
  }

  /** The stored keys of the first `n` of `count` sections of batchForEach, section after section. */
  ghost function SectionKeys<E>(t: seq<Slot<E>>, count: nat, n: nat): seq<Key<E>>
    requires n <= count
  {
    if n == 0 then [] else SectionKeys(t, count, n - 1) + Flat(Section(t, n - 1, count))
  }

  /** Sections 0 to n-1 together hold the keys of the table up to the end of section n-1. */
  lemma {:induction false} SectionsPrefix<E>(t: seq<Slot<E>>, count: nat, n: nat)
    requires 1 <= n <= count
    ensures SectionKeys(t, count, n) == Flat(t[..SectionEnd(|t|, n - 1, count)])
  {
    var s := SectionStart(|t|, n - 1, count);
    var e := SectionEnd(|t|, n - 1, count);
    SectionsContiguous(|t|, count);
    if n > 1 {
      SectionsPrefix(t, count, n - 1);
    }
    FlatJoin(t, s, e);
  }

  /** The keys up to slot `e` are those up to slot `s`, then those of slots s to e. */
  lemma FlatJoin<E>(t: seq<Slot<E>>, s: nat, e: nat)
    requires s <= e <= |t|
    ensures Flat(t[..e]) == Flat(t[..s]) + Flat(t[s..e])
  {
    assert t[..e] == t[..s] + t[s..e];
    FlatAppend(t[..s], t[s..e]);
  }

  /**
   * The sections of batchForEach split the table without overlap or gap:
   * visiting every section in turn visits every stored key exactly once,
   * in table order.
   */
  lemma SectionsCover<E>(t: seq<Slot<E>>, count: nat)
    requires 1 <= count
    ensures SectionKeys(t, count, count) == Flat(t)
  {
    SectionsPrefix(t, count, count);
    SectionsContiguous(|t|, count);
    assert t[..|t|] == t;
  }

  /** One slot further along the loop of batchForEach / each. */
  lemma VisitStep<E>(t: seq<Slot<E>>, start: nat, i: nat, visited: seq<Ref<E>>, ks: seq<Key<E>>)
    requires start <= i < |t|
    requires visited == Refs(Flat(t[start..i])) && ks == SlotKeys(t[i])
    ensures visited + Refs(ks) == Refs(Flat(t[start..i + 1]))
  {
    FlatRangeStep(t, start, i);
    RefsAppend(Flat(t[start..i]), ks);
  }

  lemma FlatPrefix<E>(t: seq<Slot<E>>, n: nat)
    requires n <= |t|
    ensures |Flat(t[..n])| <= |Flat(t)|
  {
    assert t == t[..n] + t[n..];
    FlatAppend(t[..n], t[n..]);
  }

  /** Every key of slot `i` is one of the table's elements. */
  lemma SlotInFlat<E>(t: seq<Slot<E>>, i: nat)
    requires i < |t|
    ensures forall k :: k in SlotKeys(t[i]) ==> k in Flat(t)
  {
    assert t == t[..i + 1] + t[i + 1..];
    FlatAppend(t[..i + 1], t[i + 1..]);
    FlatStep(t, i);
  }

  /** One slot further along copySet: the members are the old ones and those equal to a key copied so far. */
  lemma CopyStep<E(!new)>(eq: (E, E) -> bool, e0: seq<Key<E>>, before: seq<Key<E>>, after: seq<Key<E>>, t: seq<Slot<E>>, i: nat)
    requires i < |t|
    requires Joins(eq, before, e0, Flat(t[..i]))
    requires Joins(eq, after, before, SlotKeys(t[i]))
    ensures Joins(eq, after, e0, Flat(t[..i + 1]))
  {
    FlatStep(t, i);
    forall k
      ensures InSeq(eq, Flat(t[..i + 1]), k) <==> InSeq(eq, Flat(t[..i]), k) || InSeq(eq, SlotKeys(t[i]), k)
    {
      PositionAppend(eq, Flat(t[..i]), SlotKeys(t[i]), k);
    }
  }
}
