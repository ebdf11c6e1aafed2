/**
 * Stored keys, the pluggable hashing strategy, and searching a sequence of
 * stored keys under the strategy's equality.
 *
 * The set stores Java objects; a stored `null` is represented by the
 * NULL_KEY sentinel.  Here the sentinel is the `NullKey` variant of `Key`.
 */
module Keys {
  import opened Sizing

  datatype Option<T> = None | Some(value: T)

  /** A stored element: the sentinel for a stored null, or a real element. */
  datatype Key<E> = NullKey | Val(e: E)

  /** A Java reference handed back to a caller: null, the NULL_KEY sentinel object itself, or an element. */
  datatype Ref<E> = Null | Sentinel | Obj(e: E)

  /** nonSentinel: the sentinel is handed out as null. */
  function NonSentinel<E>(k: Key<E>): (r: Ref<E>)
    ensures r.Sentinel? == false
    ensures r.Null? <==> k.NullKey?
    ensures k.Val? ==> r == Obj(k.e)
  {
    match k
    case NullKey => Null
    case Val(e) => Obj(e)
  }

  /** A table object handed out raw, without nonSentinel (as `get` does for a single slot). */
  function Raw<E>(k: Key<E>): (r: Ref<E>)
    ensures r.Null? == false
    ensures r.Sentinel? <==> k.NullKey?
    ensures k.Val? ==> r == Obj(k.e)
  {
    match k
    case NullKey => Sentinel
    case Val(e) => Obj(e)
  }

  /**
   * The strategy's equals.  The laws of the strategy below are stated on
   * this name, so that they are applied only where a proof mentions it.
   */
  ghost predicate Equal<E>(eq: (E, E) -> bool, x: E, y: E)
  {
    eq(x, y)
  }

  /**
   * The strategy's contract: `eq` is an equivalence and equal elements have
   * equal hash codes.  `hash` also receives the null key, as
   * computeHashCode(null) does in `index`.
   */
  ghost predicate StrategyOk<E(!new)>(hash: Key<E> -> Int32, eq: (E, E) -> bool)
  {
    && (forall x {:trigger Equal(eq, x, x)} :: Equal(eq, x, x))
    && (forall x, y {:trigger Equal(eq, x, y)} :: Equal(eq, x, y) ==> Equal(eq, y, x))
    && (forall x, y, z {:trigger Equal(eq, x, y), Equal(eq, y, z)} ::
          Equal(eq, x, y) && Equal(eq, y, z) ==> Equal(eq, x, z))
    && (forall x, y {:trigger Equal(eq, x, y)} :: Equal(eq, x, y) ==> hash(Val(x)) == hash(Val(y)))
  }

  /**
   * nonNullTableObjectEquals(cur, key): a stored sentinel matches only a
   * null key; a stored element is compared with the strategy.  The strategy
   * is taken never to equate an element with null.
   */
  function Match<E>(eq: (E, E) -> bool, cur: Key<E>, key: Key<E>): bool
  {
    match cur
    case NullKey => key.NullKey?
    case Val(x) => key.Val? && eq(x, key.e)
  }

  /** The sentinel matches exactly the null key, and the null key exactly the sentinel. */
  lemma MatchNull<E>(eq: (E, E) -> bool, cur: Key<E>, key: Key<E>)
    requires cur.NullKey? || key.NullKey?
    ensures Match(eq, cur, key) <==> cur == key
  {
  }

  lemma MatchSymmetric<E(!new)>(hash: Key<E> -> Int32, eq: (E, E) -> bool, a: Key<E>, b: Key<E>)
    requires StrategyOk(hash, eq)
    ensures Match(eq, a, b) == Match(eq, b, a)
  {
    if a.Val? && b.Val? {
      assert Equal(eq, a.e, b.e) ==> Equal(eq, b.e, a.e);
      assert Equal(eq, b.e, a.e) ==> Equal(eq, a.e, b.e);
    }
  }

  /** Matching keys hash alike, so they always land in the same slot. */
  lemma MatchSameHash<E(!new)>(hash: Key<E> -> Int32, eq: (E, E) -> bool, a: Key<E>, b: Key<E>)
    requires StrategyOk(hash, eq)
    requires Match(eq, a, b)
    ensures hash(a) == hash(b)
  {
    if a.Val? {
      assert Equal(eq, a.e, b.e);
    }
  }

  /** Index of the first key of `s` that matches `key`, or |s| when there is none. */
  function Position<E>(eq: (E, E) -> bool, s: seq<Key<E>>, key: Key<E>): (p: nat)
    ensures p <= |s|
    ensures forall q :: 0 <= q < p ==> !Match(eq, s[q], key)
    ensures p < |s| ==> Match(eq, s[p], key)
  {
    if |s| == 0 then 0
    else if Match(eq, s[0], key) then 0
    else 1 + Position(eq, s[1..], key)
  }

  /** Position is the only index satisfying its contract. */
  lemma PositionIs<E>(eq: (E, E) -> bool, s: seq<Key<E>>, key: Key<E>, p: nat)
    requires p <= |s|
    requires forall q :: 0 <= q < p ==> !Match(eq, s[q], key)
    requires p < |s| ==> Match(eq, s[p], key)
    ensures Position(eq, s, key) == p
  {
  }

  function InSeq<E>(eq: (E, E) -> bool, s: seq<Key<E>>, key: Key<E>): bool
  {
    Position(eq, s, key) < |s|
  }

  /** The stored key that a lookup of `key` finds in `s`: the first match. */
  function Lookup<E>(eq: (E, E) -> bool, s: seq<Key<E>>, key: Key<E>): (r: Option<Key<E>>)
    ensures r.Some? <==> InSeq(eq, s, key)
    ensures r.Some? ==> r.value in s && Match(eq, r.value, key)
  {
    var p := Position(eq, s, key);
    if p < |s| then Some(s[p]) else None
  }

  lemma {:induction false} PositionAppend<E>(eq: (E, E) -> bool, a: seq<Key<E>>, b: seq<Key<E>>, key: Key<E>)
    ensures Position(eq, a + b, key)
         == if Position(eq, a, key) < |a| then Position(eq, a, key) else |a| + Position(eq, b, key)
  {
    if |a| > 0 {
      assert (a + b)[0] == a[0];
      assert (a + b)[1..] == a[1..] + b;
      if !Match(eq, a[0], key) {
        PositionAppend(eq, a[1..], b, key);
        assert Position(eq, a + b, key) == 1 + Position(eq, a[1..] + b, key);
        assert Position(eq, a, key) == 1 + Position(eq, a[1..], key);
      }
    } else {
      assert a + b == b;
    }
  }

  lemma LookupAppend<E>(eq: (E, E) -> bool, a: seq<Key<E>>, b: seq<Key<E>>, key: Key<E>)
    ensures Lookup(eq, a + b, key) == if InSeq(eq, a, key) then Lookup(eq, a, key) else Lookup(eq, b, key)
  {
    PositionAppend(eq, a, b, key);
  }

  /** Membership under the strategy depends only on which keys are stored, not on their order. */
  lemma InSeqMultiset<E>(eq: (E, E) -> bool, a: seq<Key<E>>, b: seq<Key<E>>, key: Key<E>)
    requires multiset(a) == multiset(b)
    ensures InSeq(eq, a, key) == InSeq(eq, b, key)
  {
    if InSeq(eq, a, key) {
      var x := a[Position(eq, a, key)];
      assert x in multiset(b);
      var q :| 0 <= q < |b| && b[q] == x;
      assert Position(eq, b, key) <= q;
    }
    if InSeq(eq, b, key) {
      var x := b[Position(eq, b, key)];
      assert x in multiset(a);
      var q :| 0 <= q < |a| && a[q] == x;
      assert Position(eq, a, key) <= q;
    }
  }

  /** No two stored keys are strategy-equal. */
  ghost predicate Distinct<E>(eq: (E, E) -> bool, s: seq<Key<E>>)
  {
    forall p, q {:trigger Match(eq, s[p], s[q])} :: 0 <= p < |s| && 0 <= q < |s| && p != q ==> !Match(eq, s[p], s[q])
  }

  /**
   * The packing rule on a flattened chain: the element at `p` is overwritten
   * with the chain's last element and the last place is cleared.
   */
  function Drop<E>(s: seq<Key<E>>, p: nat): (r: seq<Key<E>>)
    requires p < |s|
    ensures |r| == |s| - 1
    ensures r[..p] == s[..p]
  {
    if p == |s| - 1 then s[..p] else s[..p] + [s[|s| - 1]] + s[p + 1..|s| - 1]
  }

  /** Drop removes exactly the element at `p`. */
  lemma DropMultiset<E>(s: seq<Key<E>>, p: nat)
    requires p < |s|
    ensures multiset(Drop(s, p)) == multiset(s) - multiset{s[p]}
  {
    var n := |s|;
    if p == n - 1 {
      assert s == s[..p] + [s[p]];
    } else {
      assert s == s[..p] + [s[p]] + s[p + 1..n - 1] + [s[n - 1]];
    }
  }

  lemma DropDistinct<E>(eq: (E, E) -> bool, s: seq<Key<E>>, p: nat)
    requires p < |s|
    requires Distinct(eq, s)
    ensures Distinct(eq, Drop(s, p))
  {
    var r := Drop(s, p);
    var n := |s|;
    // every place of r holds the key of a distinct place of s
    forall i, j | 0 <= i < |r| && 0 <= j < |r| && i != j
      ensures !Match(eq, r[i], r[j])
    {
      var fi := if i == p then n - 1 else i;
      var fj := if j == p then n - 1 else j;
      assert r[i] == s[fi] && r[j] == s[fj];
    }
  }

  lemma DistinctAppend<E(!new)>(hash: Key<E> -> Int32, eq: (E, E) -> bool, s: seq<Key<E>>, key: Key<E>)
    requires StrategyOk(hash, eq)
    requires Distinct(eq, s) && !InSeq(eq, s, key)
    ensures Distinct(eq, s + [key])
  {
    var t := s + [key];
    forall i, j | 0 <= i < |t| && 0 <= j < |t| && i != j
      ensures !Match(eq, t[i], t[j])
    {
      if j == |s| {
        assert !Match(eq, s[i], key);
      } else if i == |s| {
        assert !Match(eq, s[j], key);
        MatchSymmetric(hash, eq, key, s[j]);
      }
    }
  }

  /** In a distinct sequence, no key before place `m` matches the key at `m`. */
  lemma DistinctFresh<E>(eq: (E, E) -> bool, d: seq<Key<E>>, m: nat, cur: seq<Key<E>>)
    requires Distinct(eq, d) && m < |d|
    requires multiset(cur) == multiset(d[..m])
    ensures !InSeq(eq, cur, d[m])
  {
    InSeqMultiset(eq, cur, d[..m], d[m]);
  }

  /** The last key of a distinct run matches none before it. */
  lemma DistinctLast<E>(eq: (E, E) -> bool, s: seq<Key<E>>, key: Key<E>)
    requires Distinct(eq, s + [key])
    ensures !InSeq(eq, s, key)
  {
    assert (s + [key])[..|s|] == s;
    DistinctFresh(eq, s + [key], |s|, s);
  }

  lemma DistinctPrefix<E>(eq: (E, E) -> bool, s: seq<Key<E>>, n: nat)
    requires Distinct(eq, s) && n <= |s|
    ensures Distinct(eq, s[..n])
  {
    forall p, q | 0 <= p < n && 0 <= q < n && p != q
      ensures !Match(eq, s[..n][p], s[..n][q])
    {
      assert s[..n][p] == s[p] && s[..n][q] == s[q];
    }
  }

  /** One more key of `ks` after `done`: the run grows by `ks[j]` and stays distinct. */
  lemma RunStep<E>(eq: (E, E) -> bool, done: seq<Key<E>>, ks: seq<Key<E>>, j: nat)
    requires Distinct(eq, done + ks) && j < |ks|
    ensures done + ks[..j + 1] == (done + ks[..j]) + [ks[j]]
    ensures Distinct(eq, (done + ks[..j]) + [ks[j]]) && |done + ks[..j]| < |done + ks|
  {
    assert ks[..j + 1] == ks[..j] + [ks[j]];
    assert (done + ks)[..|done| + j + 1] == done + ks[..j + 1];
    DistinctPrefix(eq, done + ks, |done| + j + 1);
  }

  /** A stored key is found by a lookup of itself. */
  lemma InSeqSelf<E(!new)>(hash: Key<E> -> Int32, eq: (E, E) -> bool, s: seq<Key<E>>, key: Key<E>)
    requires StrategyOk(hash, eq) && key in s
    ensures InSeq(eq, s, key)
  {
    var q :| 0 <= q < |s| && s[q] == key;
    if key.Val? {
      assert Equal(eq, key.e, key.e);
    }
    assert Match(eq, s[q], key);
    assert Position(eq, s, key) <= q;
  }

  /** After an insertion, exactly the keys matching the inserted one become members. */
  lemma MembersAfterInsert<E(!new)>(hash: Key<E> -> Int32, eq: (E, E) -> bool, a: seq<Key<E>>, b: seq<Key<E>>, key: Key<E>)
    requires StrategyOk(hash, eq)
    requires multiset(b) == multiset(a) + multiset{key}
    ensures forall k :: InSeq(eq, b, k) <==> InSeq(eq, a, k) || Match(eq, key, k)
  {
    forall k
      ensures InSeq(eq, b, k) <==> InSeq(eq, a, k) || Match(eq, key, k)
    {
      assert multiset(b) == multiset(a + [key]);
      InSeqMultiset(eq, b, a + [key], k);
      PositionAppend(eq, a, [key], k);
    }
  }

  /**
   * After the removal of the stored key `a[p]` from a distinct sequence,
   * exactly the keys matching it stop being members.
   */
  lemma MembersAfterRemove<E(!new)>(hash: Key<E> -> Int32, eq: (E, E) -> bool, a: seq<Key<E>>, b: seq<Key<E>>, p: nat)
    requires StrategyOk(hash, eq) && Distinct(eq, a) && p < |a|
    requires multiset(b) == multiset(a) - multiset{a[p]}
    ensures forall k :: InSeq(eq, b, k) <==> InSeq(eq, a, k) && !Match(eq, a[p], k)
  {
    var rest := a[..p] + a[p + 1..];
    MultisetRest(a, p);
    forall k
      ensures InSeq(eq, b, k) <==> InSeq(eq, a, k) && !Match(eq, a[p], k)
    {
      InSeqMultiset(eq, b, rest, k);
      MemberOfRest(hash, eq, a, p, k);
    }
  }

  /** Taking place `p` out of a sequence takes one copy of its key out of the multiset. */
  lemma MultisetRest<T>(a: seq<T>, p: nat)
    requires p < |a|
    ensures multiset(a) - multiset{a[p]} == multiset(a[..p] + a[p + 1..])
  {
    assert a == a[..p] + [a[p]] + a[p + 1..];
  }

  lemma MemberOfRest<E(!new)>(hash: Key<E> -> Int32, eq: (E, E) -> bool, a: seq<Key<E>>, p: nat, k: Key<E>)
    requires StrategyOk(hash, eq) && Distinct(eq, a) && p < |a|
    ensures InSeq(eq, a[..p] + a[p + 1..], k) <==> InSeq(eq, a, k) && !Match(eq, a[p], k)
  {
    var rest := a[..p] + a[p + 1..];
    if InSeq(eq, rest, k) {
      var r := Position(eq, rest, k);
      var q := if r < p then r else r + 1;
      assert rest[r] == a[q];
      InSeqHas(eq, a, a[q], k);
      if Match(eq, a[p], k) {
        MatchBoth(hash, eq, a[q], a[p], k);
      }
    }
    if InSeq(eq, a, k) && !Match(eq, a[p], k) {
      var q := Position(eq, a, k);
      var r := if q < p then q else q - 1;
      assert rest[r] == a[q];
      InSeqHas(eq, rest, a[q], k);
    }
  }

  /** Two keys matching the same key match each other. */
  lemma MatchBoth<E(!new)>(hash: Key<E> -> Int32, eq: (E, E) -> bool, x: Key<E>, y: Key<E>, k: Key<E>)
    requires StrategyOk(hash, eq) && Match(eq, x, k) && Match(eq, y, k)
    ensures Match(eq, x, y)
  {
    if x.Val? {
      assert Equal(eq, x.e, k.e) && Equal(eq, y.e, k.e);
      assert Equal(eq, k.e, y.e);
    }
  }

  lemma InSeqHas<E>(eq: (E, E) -> bool, s: seq<Key<E>>, x: Key<E>, key: Key<E>)
    requires x in s && Match(eq, x, key)
    ensures InSeq(eq, s, key)
  {
    var q :| 0 <= q < |s| && s[q] == x;
    assert Position(eq, s, key) <= q;
  }

  /** Keys matching a common key are the same keys' matches. */
  lemma MatchSwap<E(!new)>(hash: Key<E> -> Int32, eq: (E, E) -> bool, x: Key<E>, key: Key<E>, k: Key<E>)
    requires StrategyOk(hash, eq) && Match(eq, x, key)
    ensures Match(eq, x, k) <==> Match(eq, key, k)
  {
    if x.Val? && k.Val? {
      assert Equal(eq, x.e, key.e);
      assert Equal(eq, key.e, x.e);
      if Equal(eq, x.e, k.e) {
        assert Equal(eq, key.e, k.e);
      }
      if Equal(eq, key.e, k.e) {
        assert Equal(eq, x.e, k.e);
      }
    }
  }

  /**
   * The members after removing whatever is stored equal to `key` (nothing,
   * when nothing is): exactly the old members not equal to `key`.
   */
  lemma RemovedMembers<E(!new)>(hash: Key<E> -> Int32, eq: (E, E) -> bool, a: seq<Key<E>>, b: seq<Key<E>>, key: Key<E>)
    requires StrategyOk(hash, eq) && Distinct(eq, a)
    requires Lookup(eq, a, key).None? ==> b == a
    requires Lookup(eq, a, key).Some? ==> multiset(b) == multiset(a) - multiset{Lookup(eq, a, key).value}
    ensures forall k :: InSeq(eq, b, k) <==> InSeq(eq, a, k) && !Match(eq, key, k)
  {
    if InSeq(eq, a, key) {
      var p := Position(eq, a, key);
      MembersAfterRemove(hash, eq, a, b, p);
      forall k
        ensures Match(eq, a[p], k) <==> Match(eq, key, k)
      {
        MatchSwap(hash, eq, a[p], key, k);
      }
    } else {
      forall k | InSeq(eq, a, k) && Match(eq, key, k)
        ensures false
      {
        var s := a[Position(eq, a, k)];
        MatchBoth(hash, eq, s, key, k);
        InSeqHas(eq, a, s, key);
      }
    }
  }

  /** The values a procedure is handed for the stored keys `ks`, in order: each through nonSentinel. */
  function Refs<E>(ks: seq<Key<E>>): (r: seq<Ref<E>>)
    ensures |r| == |ks|
  {
    seq(|ks|, j requires 0 <= j < |ks| => NonSentinel(ks[j]))
  }

  lemma RefsAppend<E>(a: seq<Key<E>>, b: seq<Key<E>>)
    ensures Refs(a + b) == Refs(a) + Refs(b)
  {
  }

  /** The keys of `r` are exactly those of `a` and those of `b`. */
  ghost predicate Joins<E(!new)>(eq: (E, E) -> bool, r: seq<Key<E>>, a: seq<Key<E>>, b: seq<Key<E>>)
  {
    forall k {:trigger InSeq(eq, r, k)} :: InSeq(eq, r, k) <==> InSeq(eq, a, k) || InSeq(eq, b, k)
  }

  /** One key further along a run of additions: the members are the old ones and those equal to a key added so far. */
  lemma AddStep<E(!new)>(hash: Key<E> -> Int32, eq: (E, E) -> bool, e0: seq<Key<E>>, before: seq<Key<E>>, after: seq<Key<E>>,
                         ks: seq<Key<E>>, j: nat, added: bool)
    requires StrategyOk(hash, eq) && j < |ks|
    requires Joins(eq, before, e0, ks[..j])
    requires added ==> multiset(after) == multiset(before) + multiset{ks[j]}
    requires !added ==> after == before && InSeq(eq, before, ks[j])
    ensures Joins(eq, after, e0, ks[..j + 1])
  {
    assert ks[..j + 1] == ks[..j] + [ks[j]];
    forall k
      ensures InSeq(eq, ks[..j + 1], k) <==> InSeq(eq, ks[..j], k) || Match(eq, ks[j], k)
    {
      PositionAppend(eq, ks[..j], [ks[j]], k);
    }
    if added {
      MembersAfterInsert(hash, eq, before, after, ks[j]);
    } else {
      forall k | Match(eq, ks[j], k)
        ensures InSeq(eq, before, k)
      {
        var s := Lookup(eq, before, ks[j]).value;
        MatchSwap(hash, eq, s, ks[j], k);
        InSeqHas(eq, before, s, k);
      }
    }
  }

  /** One key further along a run of removals: the members are the old ones equal to no key removed so far. */
  lemma RemoveStep<E(!new)>(hash: Key<E> -> Int32, eq: (E, E) -> bool, e0: seq<Key<E>>, before: seq<Key<E>>, after: seq<Key<E>>,
                            ks: seq<Key<E>>, j: nat)
    requires StrategyOk(hash, eq) && j < |ks|
    requires forall k :: InSeq(eq, before, k) <==> InSeq(eq, e0, k) && !InSeq(eq, ks[..j], k)
    requires forall k :: InSeq(eq, after, k) <==> InSeq(eq, before, k) && !Match(eq, ks[j], k)
    ensures forall k :: InSeq(eq, after, k) <==> InSeq(eq, e0, k) && !InSeq(eq, ks[..j + 1], k)
  {
    assert ks[..j + 1] == ks[..j] + [ks[j]];
    forall k
      ensures InSeq(eq, ks[..j + 1], k) <==> InSeq(eq, ks[..j], k) || Match(eq, ks[j], k)
    {
      PositionAppend(eq, ks[..j], [ks[j]], k);
    }
  }

  /**
   * Offering the stored element `s` equal to `key` to another set makes the
   * keys equal to `key` members there.
   */
  lemma JoinClass<E(!new)>(hash: Key<E> -> Int32, eq: (E, E) -> bool, before: seq<Key<E>>, after: seq<Key<E>>,
                           s: Key<E>, key: Key<E>, added: bool)
    requires StrategyOk(hash, eq) && Match(eq, s, key)
    requires added ==> multiset(after) == multiset(before) + multiset{s}
    requires !added ==> after == before && InSeq(eq, before, s)
    ensures forall k :: InSeq(eq, after, k) <==> InSeq(eq, before, k) || Match(eq, key, k)
  {
    AddStep(hash, eq, before, before, after, [s], 0, added);
    forall k
      ensures InSeq(eq, [s], k) <==> Match(eq, key, k)
    {
      MatchSwap(hash, eq, s, key, k);
    }
  }

  /** A key equal to `a` is a member exactly when `a` is. */
  lemma MemberClass<E(!new)>(hash: Key<E> -> Int32, eq: (E, E) -> bool, s: seq<Key<E>>, a: Key<E>, k: Key<E>)
    requires StrategyOk(hash, eq) && Match(eq, a, k)
    ensures InSeq(eq, s, a) <==> InSeq(eq, s, k)
  {
    if InSeq(eq, s, a) {
      var x := s[Position(eq, s, a)];
      MatchSwap(hash, eq, a, k, x);
      MatchSymmetric(hash, eq, x, a);
      MatchSymmetric(hash, eq, x, k);
      InSeqHas(eq, s, x, k);
    }
    if InSeq(eq, s, k) {
      var x := s[Position(eq, s, k)];
      MatchSwap(hash, eq, a, k, x);
      MatchSymmetric(hash, eq, x, a);
      MatchSymmetric(hash, eq, x, k);
      InSeqHas(eq, s, x, a);
    }
  }

  /**
   * `after` is `before` without its key at place `c`: the keys before
   * place `c` keep their places and the keys after it are the same keys,
   * possibly reordered.
   */
  ghost predicate RemovedAtPlace<E>(before: seq<Key<E>>, after: seq<Key<E>>, c: nat)
  {
    && c < |before|
    && |after| + 1 == |before|
    && after[..c] == before[..c]
    && multiset(after[c..]) == multiset(before[c + 1..])
  }

  /** Such a removal takes out exactly the key at place `c`. */
  lemma RemovedAtPlaceMultiset<E>(before: seq<Key<E>>, after: seq<Key<E>>, c: nat)
    requires RemovedAtPlace(before, after, c)
    ensures multiset(after) == multiset(before) - multiset{before[c]}
  {
    assert after == after[..c] + after[c..];
    assert before == before[..c] + [before[c]] + before[c + 1..];
  }

  /** The keys of `r` are exactly those of `s` that match one of `keys`. */
  ghost predicate Retains<E(!new)>(eq: (E, E) -> bool, r: seq<Key<E>>, s: seq<Key<E>>, keys: seq<Key<E>>)
  {
    forall k :: InSeq(eq, r, k) <==> InSeq(eq, s, k) && InSeq(eq, keys, k)
  }

  /**
   * One key further along retainAllFromNonSet's loop: `after` gained the
   * members of `s` that match `keys[j]`, if there are any.
   */
  lemma RetainStep<E(!new)>(hash: Key<E> -> Int32, eq: (E, E) -> bool, s: seq<Key<E>>,
                            before: seq<Key<E>>, after: seq<Key<E>>, keys: seq<Key<E>>, j: nat)
    requires StrategyOk(hash, eq) && j < |keys|
    requires Retains(eq, before, s, keys[..j])
    requires forall k :: InSeq(eq, after, k) <==> InSeq(eq, before, k) || (InSeq(eq, s, keys[j]) && Match(eq, keys[j], k))
    ensures Retains(eq, after, s, keys[..j + 1])
  {
    assert keys[..j + 1] == keys[..j] + [keys[j]];
    forall k
      ensures InSeq(eq, keys[..j + 1], k) <==> InSeq(eq, keys[..j], k) || Match(eq, keys[j], k)
      ensures Match(eq, keys[j], k) ==> (InSeq(eq, s, keys[j]) <==> InSeq(eq, s, k))
    {
      PositionAppend(eq, keys[..j], [keys[j]], k);
      if Match(eq, keys[j], k) {
        MemberClass(hash, eq, s, keys[j], k);
      }
    }
  }

  /** Removing place `p` of a duplicate-free sequence by the removal rule loses exactly the keys matching `s[p]`. */
  lemma MemberOfDrop<E(!new)>(hash: Key<E> -> Int32, eq: (E, E) -> bool, s: seq<Key<E>>, p: nat, k: Key<E>)
    requires StrategyOk(hash, eq) && Distinct(eq, s) && p < |s|
    ensures InSeq(eq, Drop(s, p), k) <==> InSeq(eq, s, k) && !Match(eq, s[p], k)
  {
    DropMultiset(s, p);
    MultisetRest(s, p);
    InSeqMultiset(eq, Drop(s, p), s[..p] + s[p + 1..], k);
    MemberOfRest(hash, eq, s, p, k);
  }

  /**
   * Counting: when every key of the duplicate-free `r` is a member of the
   * duplicate-free `s`, and some member `k` of `s` is not a member of `r`,
   * then `r` is the shorter.
   */
  lemma {:induction false} FewerMembers<E(!new)>(hash: Key<E> -> Int32, eq: (E, E) -> bool, r: seq<Key<E>>, s: seq<Key<E>>, k: Key<E>)
    requires StrategyOk(hash, eq) && Distinct(eq, r) && Distinct(eq, s)
    requires forall i :: 0 <= i < |r| ==> InSeq(eq, s, r[i])
    requires InSeq(eq, s, k) && !InSeq(eq, r, k)
    ensures |r| < |s|
    decreases |r|
  {
    if |r| > 0 {
      var n := |r| - 1;
      var x := r[n];
      var p := Position(eq, s, x);
      var r', s' := r[..n], Drop(s, p);
      DistinctPrefix(eq, r, n);
      DropDistinct(eq, s, p);
      MatchSymmetric(hash, eq, s[p], x);
      forall i | 0 <= i < |r'|
        ensures InSeq(eq, s', r'[i])
      {
        var y, z := r[i], s[p];
        MatchSymmetric(hash, eq, z, y);
        if Match(eq, z, y) {
          MatchBoth(hash, eq, y, x, z);
        }
        MemberOfDrop(hash, eq, s, p, y);
      }
      MatchSymmetric(hash, eq, s[p], k);
      if Match(eq, s[p], k) {
        MatchBoth(hash, eq, x, k, s[p]);
        InSeqHas(eq, r, x, k);
      }
      MemberOfDrop(hash, eq, s, p, k);
      if InSeq(eq, r', k) {
        var y := Lookup(eq, r', k).value;
        InSeqHas(eq, r, y, k);
      }
      FewerMembers(hash, eq, r', s', k);
    }
  }

  /**
   * When the retained keys are at least as many as the keys of `s`, every
   * key of `s` matches one of `keys`: retaining then drops nothing.
   */
  lemma RetainedAll<E(!new)>(hash: Key<E> -> Int32, eq: (E, E) -> bool, r: seq<Key<E>>, s: seq<Key<E>>, keys: seq<Key<E>>)
    requires StrategyOk(hash, eq) && Distinct(eq, r) && Distinct(eq, s)
    requires Retains(eq, r, s, keys) && |r| >= |s|
    ensures forall k :: InSeq(eq, s, k) ==> InSeq(eq, keys, k)
  {
    forall k | InSeq(eq, s, k)
      ensures InSeq(eq, keys, k)
    {
      if !InSeq(eq, keys, k) {
        forall i | 0 <= i < |r|
          ensures InSeq(eq, s, r[i])
        {
          InSeqSelf(hash, eq, r, r[i]);
        }
        FewerMembers(hash, eq, r, s, k);
        assert false;
      }
    }
  }
}
