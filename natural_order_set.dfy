/**
 * NaturalOrderSet: a navigable set kept in insertion order. It holds two
 * indexes over the same entries: `realSet`, a TreeSet of stamped entries
 * ordered by stamp, and `observer`, a HashMap from each element to its entry.
 * A new element is stamped with the tree's current size.
 */
module NaturalOrderSets {
  import opened Outcomes
  import opened OrderedEntries

  /** The Java exceptions the set's operations end in. */
  datatype Failure =
    | NullPointer                  // a null entry or element was dereferenced
    | NoSuchElement                // first()/last() of an empty TreeSet
    | IllegalArgument              // a sub-set whose lower end lies above its upper end
    | Unsupported(message: string) // the RuntimeException of an unsupported operation

  // ---------------------------------------------------------------------
  // The TreeSet of entries: a sequence strictly ascending by stamp. The
  // TreeSet compares entries with ElementWithOrder.compareTo, which for the
  // non-negative stamps used here is the integer order (CompareOnStamps).
  // ---------------------------------------------------------------------

  ghost predicate Ordered<E>(t: seq<Entry<E>>) {
    forall i, j :: 0 <= i < j < |t| ==> t[i].order < t[j].order
  }

  /** Some entry of the tree has stamp k, so the TreeSet finds k "equal". */
  predicate HasStamp<E(==)>(t: seq<Entry<E>>, k: int32) {
    exists x :: x in t && x.order == k
  }

  /** Two ElementWithOrder objects holding entries of an ordered tree of
      non-negative stamps compare, by compareTo, as their positions do: the
      order of the sequence is the order the TreeSet keeps. */
  lemma TreeOrderIsCompareTo<E>(t: seq<Entry<E>>, i: int, j: int, a: ElementWithOrder<E>, b: ElementWithOrder<E>)
    requires Ordered(t) && 0 <= i < |t| && 0 <= j < |t|
    requires 0 <= t[i].order && 0 <= t[j].order
    requires a.Value() == t[i] && b.Value() == t[j]
    ensures a.CompareTo(b) < 0 <==> i < j
    ensures a.CompareTo(b) == 0 <==> i == j
    ensures a.CompareTo(b) > 0 <==> i > j
  {
  }

  /** TreeSet.size(): the number of entries, saturated at Integer.MAX_VALUE. */
  function SizeOf<E(==)>(t: seq<Entry<E>>): (n: int32)
    ensures 0 <= n
    ensures |t| <= IntMax as int ==> n as int == |t|
    ensures |t| > IntMax as int ==> n == IntMax
  {
    if |t| <= IntMax as int then |t| as int32 else IntMax
  }

  /** Putting an entry in front of an ordered tree whose stamps all exceed
      the entry's keeps it ordered. */
  lemma OrderedCons<E>(x: Entry<E>, t: seq<Entry<E>>)
    ensures Ordered(t) && (forall y :: y in t ==> x.order < y.order) ==> Ordered([x] + t)
  {
    if Ordered(t) && forall y :: y in t ==> x.order < y.order {
      var s := [x] + t;
      forall i, j | 0 <= i < j < |s| ensures s[i].order < s[j].order {
        assert s[j] == t[j - 1];
        if i > 0 {
          assert s[i] == t[i - 1];
        }
      }
    }
  }

  /** TreeSet.add of an entry whose stamp is not yet taken: it goes before the
      first entry with a greater stamp. */
  function Insert<E(==)>(t: seq<Entry<E>>, x: Entry<E>): (r: seq<Entry<E>>)
    ensures |r| == |t| + 1
    ensures forall y :: y in r ==> y in t || y == x
    ensures x in r && forall y :: y in t ==> y in r
  {
    if t == [] || x.order < t[0].order then [x] + t
    else
      assert t == [t[0]] + t[1..];
      [t[0]] + Insert(t[1..], x)
  }

  /** Insertion keeps the tree ordered when the stamp is not taken. */
  lemma {:induction false} InsertOrdered<E>(t: seq<Entry<E>>, x: Entry<E>)
    requires Ordered(t) && !HasStamp(t, x.order)
    ensures Ordered(Insert(t, x))
  {
    if t == [] || x.order < t[0].order {
      OrderedCons(x, t);
    } else {
      assert t == [t[0]] + t[1..];
      InsertOrdered(t[1..], x);
      OrderedCons(t[0], Insert(t[1..], x));
    }
  }

  /** An entry whose stamp exceeds every stamp in the tree is appended. */
  lemma {:induction false} InsertAtEnd<E>(t: seq<Entry<E>>, x: Entry<E>)
    requires forall y :: y in t ==> y.order < x.order
    ensures Insert(t, x) == t + [x]
  {
    if t != [] {
      assert t[0] in t;
      assert t == [t[0]] + t[1..];
      InsertAtEnd(t[1..], x);
    }
  }

  /** TreeSet.remove of an entry: removes the tree entry whose stamp equals
      the given one, whichever element that entry holds. */
  function RemoveStamp<E(==)>(t: seq<Entry<E>>, k: int32): (r: seq<Entry<E>>)
    ensures forall y :: y in r ==> y in t
    ensures Ordered(t) ==> Ordered(r)
    ensures !HasStamp(t, k) ==> r == t
  {
    if t == [] then []
    else if t[0].order == k then t[1..]
    else
      var rest := RemoveStamp(t[1..], k);
      assert t == [t[0]] + t[1..];
      OrderedCons(t[0], rest);
      [t[0]] + rest
  }

  /** In an ordered tree, removing stamp t[i].order removes exactly t[i]. */
  lemma {:induction false} RemoveStampAt<E>(t: seq<Entry<E>>, i: nat)
    requires Ordered(t) && i < |t|
    ensures RemoveStamp(t, t[i].order) == t[..i] + t[i + 1..]
  {
    if i > 0 {
      assert t[0].order < t[i].order;
      RemoveStampAt(t[1..], i - 1);
      assert t[1..][i - 1] == t[i];
      assert t[1..][..i - 1] + t[1..][i..] == t[1..i] + t[i + 1..];
      assert t[..i] == [t[0]] + t[1..i];
    }
  }

  /** The elements of the tree in ascending stamp order: what iterator() yields. */
  function Elements<E(==)>(t: seq<Entry<E>>): seq<E> {
    seq(|t|, i requires 0 <= i < |t| => t[i].element)
  }

  lemma ElementsSlice<E>(t: seq<Entry<E>>, i: nat, j: nat)
    requires i <= j <= |t|
    ensures Elements(t[i..j]) == Elements(t)[i..j]
  {
  }

  // ---------------------------------------------------------------------
  // Bounds and range queries (lower/floor/ceiling/higher and the sub-sets)
  // ---------------------------------------------------------------------

  datatype Bound = Unbounded | Inclusive(stamp: int32) | Exclusive(stamp: int32)

  predicate Above(k: int32, lo: Bound) {
    match lo
    case Unbounded => true
    case Inclusive(b) => b <= k
    case Exclusive(b) => b < k
  }

  predicate Below(k: int32, hi: Bound) {
    match hi
    case Unbounded => true
    case Inclusive(b) => k <= b
    case Exclusive(b) => k < b
  }

  /** The entries whose stamps lie between the two bounds, in tree order. */
  function Range<E(==)>(t: seq<Entry<E>>, lo: Bound, hi: Bound): (r: seq<Entry<E>>)
    ensures forall x :: x in r ==> x in t && Above(x.order, lo) && Below(x.order, hi)
    ensures forall x :: x in t && Above(x.order, lo) && Below(x.order, hi) ==> x in r
  {
    if t == [] then []
    else
      var rest := Range(t[1..], lo, hi);
      assert t == [t[0]] + t[1..];
      if Above(t[0].order, lo) && Below(t[0].order, hi) then [t[0]] + rest
      else rest
  }

  /** The entries between the bounds keep the tree's order. */
  lemma {:induction false} RangeOrdered<E>(t: seq<Entry<E>>, lo: Bound, hi: Bound)
    requires Ordered(t)
    ensures Ordered(Range(t, lo, hi))
  {
    if t != [] {
      var rest := Range(t[1..], lo, hi);
      RangeOrdered(t[1..], lo, hi);
      forall x | x in rest ensures t[0].order < x.order {
        var j :| 0 <= j < |t| - 1 && t[1..][j] == x;
        assert t[j + 1] == x;
      }
      OrderedCons(t[0], rest);
    }
  }

  ghost predicate IsGreatest<E>(t: seq<Entry<E>>, x: Entry<E>, hi: Bound) {
    && x in t && Below(x.order, hi)
    && forall y :: y in t && Below(y.order, hi) ==> y.order <= x.order
  }

  ghost predicate IsLeast<E>(t: seq<Entry<E>>, x: Entry<E>, lo: Bound) {
    && x in t && Above(x.order, lo)
    && forall y :: y in t && Above(y.order, lo) ==> x.order <= y.order
  }

  /** The entry with the greatest stamp not above hi (TreeSet.lower/floor). */
  function GreatestUpTo<E(==)>(t: seq<Entry<E>>, hi: Bound): (r: Option<Entry<E>>)
    requires Ordered(t)
    ensures r.None? <==> forall x :: x in t ==> !Below(x.order, hi)
    ensures r.Some? ==> IsGreatest(t, r.value, hi)
  {
    var below := Range(t, Unbounded, hi);
    RangeOrdered(t, Unbounded, hi);
    if below == [] then None
    else
      var x := below[|below| - 1];
      assert forall y :: y in below ==> y.order <= x.order;
      Some(x)
  }

  /** The entry with the least stamp not below lo (TreeSet.ceiling/higher). */
  function LeastFrom<E(==)>(t: seq<Entry<E>>, lo: Bound): (r: Option<Entry<E>>)
    requires Ordered(t)
    ensures r.None? <==> forall x :: x in t ==> !Above(x.order, lo)
    ensures r.Some? ==> IsLeast(t, r.value, lo)
  {
    var above := Range(t, lo, Unbounded);
    RangeOrdered(t, lo, Unbounded);
    if above == [] then None
    else
      var x := above[0];
      assert forall y :: y in above ==> x.order <= y.order;
      Some(x)
  }

  /** The elements of the entries between the bounds, as a plain set: what the
      sub-set views copy out of the tree. */
  function ElementsBetween<E(==)>(t: seq<Entry<E>>, lo: Bound, hi: Bound): (r: set<E>)
    ensures forall e :: e in r ==> exists x :: x in t && x.element == e && Above(x.order, lo) && Below(x.order, hi)
    ensures forall x :: x in t && Above(x.order, lo) && Below(x.order, hi) ==> x.element in r
  {
    set x | x in Range(t, lo, hi) :: x.element
  }

  // ---------------------------------------------------------------------
  // The two indexes and their invariants
  // ---------------------------------------------------------------------

  /** A snapshot of the set's two fields. */
  datatype Indexes<E> = Indexes(realSet: seq<Entry<E>>, observer: map<E, Entry<E>>)

  /** What every reachable state satisfies, whatever the sequence of calls:
      the tree is ordered, stamps are non-negative, every tree entry is the
      observer's entry for its element, and every observer entry holds its key. */
  ghost predicate WellFormed<E>(s: Indexes<E>) {
    && Ordered(s.realSet)
    && (forall x :: x in s.realSet ==> 0 <= x.order && x.element in s.observer && s.observer[x.element] == x)
    && (forall e :: e in s.observer ==> s.observer[e].element == e && 0 <= s.observer[e].order)
  }

  /** The intended invariant: both indexes hold the same entries. */
  ghost predicate Synced<E>(s: Indexes<E>) {
    && WellFormed(s)
    && forall e :: e in s.observer ==> s.observer[e] in s.realSet
  }

  /** Stamps are 0, 1, ..., n-1 in tree order: true as long as nothing has been
      removed except from the tail since the set was last empty. */
  ghost predicate Dense<E>(t: seq<Entry<E>>) {
    forall i :: 0 <= i < |t| ==> t[i].order as int == i
  }

  /** The stamp add() would hand out is not already taken in the tree. */
  predicate FreshStamp<E(==)>(t: seq<Entry<E>>) {
    !HasStamp(t, SizeOf(t))
  }

  ghost predicate Distinct<E>(c: seq<E>) {
    forall i, j :: 0 <= i < j < |c| ==> c[i] != c[j]
  }

  /** A distinct sequence has as many members as it has positions. */
  lemma {:induction false} DistinctCardinality<E>(c: seq<E>)
    requires Distinct(c)
    ensures |set x | x in c| == |c|
  {
    if c != [] {
      var rest := c[1..];
      assert Distinct(rest) by {
        forall i, j | 0 <= i < j < |rest| ensures rest[i] != rest[j] {
          assert rest[i] == c[i + 1] && rest[j] == c[j + 1];
        }
      }
      DistinctCardinality(rest);
      assert c[0] !in rest by {
        forall i | 0 <= i < |rest| ensures rest[i] != c[0] {
          assert rest[i] == c[i + 1];
        }
      }
      assert (set x | x in c) == {c[0]} + (set x | x in rest) by {
        assert c == [c[0]] + rest;
      }
    }
  }

  /** Under WellFormed, tree entries hold distinct elements. */
  lemma ElementsDistinct<E>(s: Indexes<E>)
    requires WellFormed(s)
    ensures Distinct(Elements(s.realSet))
  {
    var t := s.realSet;
    forall i, j | 0 <= i < j < |t| ensures Elements(t)[i] != Elements(t)[j] {
      assert t[i] in t && t[j] in t;
      assert t[i].order < t[j].order;
    }
  }

  /** When the indexes agree, contains() and iteration agree, and size() counts
      exactly the contained elements. */
  lemma SyncedViews<E>(s: Indexes<E>)
    requires WellFormed(s)
    ensures forall e :: e in Elements(s.realSet) ==> e in s.observer
    ensures Synced(s) ==> forall e :: e in s.observer ==> e in Elements(s.realSet)
    ensures Synced(s) ==> |s.observer| == |s.realSet|
  {
    var t := s.realSet;
    if Synced(s) {
      forall e | e in s.observer ensures e in Elements(t) {
        var i :| 0 <= i < |t| && t[i] == s.observer[e];
        assert Elements(t)[i] == e;
      }
      ElementsDistinct(s);
      DistinctCardinality(Elements(t));
      assert s.observer.Keys == set x | x in Elements(t);
    }
  }

  // ---------------------------------------------------------------------
  // The state changes, as functions from the old indexes
  // ---------------------------------------------------------------------

  /** add(e): a present element is refused; otherwise it is put in the observer
      with stamp size(), and the tree takes the entry only if no entry already
      has that stamp. The result is the tree's answer. */
  function AddStep<E(==)>(s: Indexes<E>, e: E): (Indexes<E>, bool) {
    if e in s.observer then (s, false)
    else
      var ele := Entry(SizeOf(s.realSet), e);
      var observer := s.observer[e := ele];
      if HasStamp(s.realSet, ele.order) then (Indexes(s.realSet, observer), false)
      else (Indexes(Insert(s.realSet, ele), observer), true)
  }

  /** remove(o): an absent element is refused; otherwise the tree loses the
      entry with o's stamp and the observer loses o. */
  function RemoveStep<E(==)>(s: Indexes<E>, o: E): (Indexes<E>, bool) {
    if o !in s.observer then (s, false)
    else (Indexes(RemoveStamp(s.realSet, s.observer[o].order), s.observer - {o}), true)
  }

  /** pollFirst(): the tree's first entry leaves both indexes; on an empty tree
      the null entry is dereferenced. */
  function PollFirstStep<E(==)>(s: Indexes<E>): Result<(Indexes<E>, E), Failure> {
    if s.realSet == [] then Failure(NullPointer)
    else
      var ele := s.realSet[0];
      Success((Indexes(s.realSet[1..], s.observer - {ele.element}), ele.element))
  }

  /** pollLast(): the tree's last entry leaves both indexes. */
  function PollLastStep<E(==)>(s: Indexes<E>): Result<(Indexes<E>, E), Failure> {
    if s.realSet == [] then Failure(NullPointer)
    else
      var ele := s.realSet[|s.realSet| - 1];
      Success((Indexes(s.realSet[..|s.realSet| - 1], s.observer - {ele.element}), ele.element))
  }

  /** addAll(c): add() on each element of c, in order. */
  function AddAllStep<E(==)>(s: Indexes<E>, c: seq<E>): Indexes<E> {
    if c == [] then s
    else AddStep(AddAllStep(s, c[..|c| - 1]), c[|c| - 1]).0
  }

  /** The elements pollFirst() returns when called until it fails. */
  function DrainFirst<E(==)>(s: Indexes<E>): seq<E>
    decreases |s.realSet|
  {
    match PollFirstStep(s)
    case Failure(_) => []
    case Success((next, x)) => [x] + DrainFirst(next)
  }

  // ---------------------------------------------------------------------
  // What the state changes preserve
  // ---------------------------------------------------------------------

  lemma AddPreservesWellFormed<E>(s: Indexes<E>, e: E)
    requires WellFormed(s)
    ensures WellFormed(AddStep(s, e).0)
  {
    if e !in s.observer {
      var ele := Entry(SizeOf(s.realSet), e);
      if !HasStamp(s.realSet, ele.order) {
        InsertOrdered(s.realSet, ele);
      }
      var s' := AddStep(s, e).0;
      forall x | x in s'.realSet
        ensures 0 <= x.order && x.element in s'.observer && s'.observer[x.element] == x
      {
        if x != ele {
          assert x in s.realSet;
        }
      }
    }
  }

  /** With both indexes in agreement, add() of a new element keeps them in
      agreement exactly when its stamp is fresh, and reports success exactly
      then; the element is contained either way. */
  lemma AddKeepsSyncedIffFresh<E>(s: Indexes<E>, e: E)
    requires Synced(s) && e !in s.observer
    ensures AddStep(s, e).1 == FreshStamp(s.realSet)
    ensures Synced(AddStep(s, e).0) <==> FreshStamp(s.realSet)
    ensures e in AddStep(s, e).0.observer
  {
    AddPreservesWellFormed(s, e);
    var s' := AddStep(s, e).0;
    var ele := Entry(SizeOf(s.realSet), e);
    if FreshStamp(s.realSet) {
      forall k | k in s'.observer ensures s'.observer[k] in s'.realSet {
        if k != e {
          assert s.observer[k] in s.realSet;
        }
      }
    } else {
      assert ele !in s.realSet;
      assert s'.realSet == s.realSet && s'.observer[e] == ele;
    }
  }

  /** The stamp-reuse hazard: when the stamp is taken, add() answers false, yet
      the element is contained while iteration omits it, and the observer holds
      one entry more than the tree. */
  lemma AddOnTakenStamp<E>(s: Indexes<E>, e: E)
    requires Synced(s) && e !in s.observer && !FreshStamp(s.realSet)
    ensures var (s', added) := AddStep(s, e);
      && !added
      && s'.realSet == s.realSet
      && e in s'.observer
      && e !in Elements(s'.realSet)
      && |s'.observer| == |s'.realSet| + 1
  {
    SyncedViews(s);
    var s' := AddStep(s, e).0;
    assert s'.observer == s.observer[e := Entry(SizeOf(s.realSet), e)];
    assert e !in Elements(s.realSet);
  }

  /** Dense stamps are always fresh below Integer.MAX_VALUE entries. */
  lemma DenseIsFresh<E>(t: seq<Entry<E>>)
    requires Dense(t) && |t| <= IntMax as int
    ensures FreshStamp(t)
    ensures forall y :: y in t ==> y.order < SizeOf(t)
  {
    forall y | y in t ensures y.order < SizeOf(t) {
      var i :| 0 <= i < |t| && t[i] == y;
    }
  }

  /** Adding a new element to a dense, synced set appends it at the end of the
      iteration order and keeps the stamps dense. */
  lemma AddToDense<E>(s: Indexes<E>, e: E)
    requires Synced(s) && Dense(s.realSet) && e !in s.observer
    requires |s.realSet| < IntMax as int
    ensures var (s', added) := AddStep(s, e);
      && added
      && Synced(s')
      && Dense(s'.realSet)
      && Elements(s'.realSet) == Elements(s.realSet) + [e]
      && |s'.realSet| == |s.realSet| + 1
      && s'.observer.Keys == s.observer.Keys + {e}
  {
    var t := s.realSet;
    var ele := Entry(SizeOf(t), e);
    DenseIsFresh(t);
    AddKeepsSyncedIffFresh(s, e);
    InsertAtEnd(t, ele);
    assert AddStep(s, e) == (Indexes(t + [ele], s.observer[e := ele]), true);
    ElementsSnoc(t, ele);
    assert ele.order as int == |t|;
  }

  /** The elements of a tree with one more entry at the end. */
  lemma ElementsSnoc<E>(t: seq<Entry<E>>, x: Entry<E>)
    ensures Elements(t + [x]) == Elements(t) + [x.element]
  {
  }

  /** Starting from a dense, synced set (the empty set, say), adding distinct
      new elements yields them in insertion order, with stamps 0..n-1. */
  lemma {:induction false} AddAllInInsertionOrder<E>(s: Indexes<E>, c: seq<E>)
    requires Synced(s) && Dense(s.realSet)
    requires Distinct(c) && forall x :: x in c ==> x !in s.observer
    requires |s.realSet| + |c| <= IntMax as int
    ensures Synced(AddAllStep(s, c)) && Dense(AddAllStep(s, c).realSet)
    ensures Elements(AddAllStep(s, c).realSet) == Elements(s.realSet) + c
    ensures AddAllStep(s, c).observer.Keys == s.observer.Keys + set x | x in c
  {
    if c != [] {
      var init := c[..|c| - 1];
      var last := c[|c| - 1];
      DistinctInit(c);
      AddAllInInsertionOrder(s, init);
      var mid := AddAllStep(s, init);
      assert |mid.realSet| < IntMax as int by {
        assert |Elements(mid.realSet)| == |s.realSet| + |init|;
      }
      assert last in c;
      assert last !in mid.observer.Keys;
      AddToDense(mid, last);
    }
  }

  /** Dropping the last element of a distinct sequence keeps it distinct, and
      the last element is not among the others. */
  lemma DistinctInit<E>(c: seq<E>)
    requires Distinct(c) && c != []
    ensures Distinct(c[..|c| - 1])
    ensures c[|c| - 1] !in c[..|c| - 1]
    ensures c == c[..|c| - 1] + [c[|c| - 1]]
    ensures forall x :: x in c[..|c| - 1] ==> x in c
    ensures forall x :: x in c <==> x in c[..|c| - 1] || x == c[|c| - 1]
  {
    var init := c[..|c| - 1];
    SnocSplit(c);
    forall i | 0 <= i < |init| ensures init[i] != c[|c| - 1] {
      assert init[i] == c[i];
    }
  }

  /** A non-empty sequence is its front followed by its last element. */
  lemma SnocSplit<E>(c: seq<E>)
    requires c != []
    ensures c == c[..|c| - 1] + [c[|c| - 1]]
    ensures forall x :: x in c <==> x in c[..|c| - 1] || x == c[|c| - 1]
  {
    assert c == c[..|c| - 1] + [c[|c| - 1]];
  }

  /** Taking t[i] out of an ordered tree leaves an ordered tree of the other
      entries. */
  lemma SliceOut<E>(t: seq<Entry<E>>, i: nat)
    requires Ordered(t) && i < |t|
    ensures Ordered(t[..i] + t[i + 1..])
    ensures forall x :: x in t[..i] + t[i + 1..] ==> x in t && x.order != t[i].order
    ensures forall j :: 0 <= j < |t| && j != i ==> t[j] in t[..i] + t[i + 1..]
  {
    var r := t[..i] + t[i + 1..];
    assert forall j :: 0 <= j < |r| ==> r[j] == if j < i then t[j] else t[j + 1];
    forall j | 0 <= j < |t| && j != i ensures t[j] in r {
      if j < i {
        assert r[j] == t[j];
      } else {
        assert r[j - 1] == t[j];
      }
    }
  }

  /** Taking the entry t[i] out of the tree and its element out of the observer
      keeps both invariants. */
  lemma RemoveEntryPreserves<E>(s: Indexes<E>, i: nat, rest: seq<Entry<E>>)
    requires WellFormed(s) && i < |s.realSet|
    requires rest == s.realSet[..i] + s.realSet[i + 1..]
    ensures var t := s.realSet;
      var s' := Indexes(rest, s.observer - {t[i].element});
      && WellFormed(s')
      && t[i].element !in s'.observer
      && (Synced(s) ==> Synced(s'))
  {
    var t := s.realSet;
    var o := t[i].element;
    var s' := Indexes(rest, s.observer - {o});
    SliceOut(t, i);
    assert t[i] in t;
    forall x | x in s'.realSet
      ensures 0 <= x.order && x.element in s'.observer && s'.observer[x.element] == x
    {
      assert x in t;
      assert x.element != o;
    }
    if Synced(s) {
      forall k | k in s'.observer ensures s'.observer[k] in s'.realSet {
        var j :| 0 <= j < |t| && t[j] == s.observer[k];
        assert j != i;
      }
    }
  }

  /** remove() keeps the indexes well formed; from synced indexes it takes the
      element's own entry out of the tree and keeps them synced. */
  lemma RemoveKeepsSynced<E>(s: Indexes<E>, o: E)
    requires WellFormed(s)
    ensures WellFormed(RemoveStep(s, o).0)
    ensures Synced(s) && o in s.observer ==>
      var (s', removed) := RemoveStep(s, o);
      && removed
      && Synced(s')
      && o !in s'.observer
      && exists i :: 0 <= i < |s.realSet| && s.realSet[i].element == o
           && s'.realSet == s.realSet[..i] + s.realSet[i + 1..]
  {
    if o in s.observer {
      var t := s.realSet;
      var k := s.observer[o].order;
      if Synced(s) {
        var i :| 0 <= i < |t| && t[i] == s.observer[o];
        RemoveStampAt(t, i);
        RemoveEntryPreserves(s, i, t[..i] + t[i + 1..]);
      } else if HasStamp(t, k) {
        // The tree entry with o's stamp goes, whichever element it holds.
        var i :| 0 <= i < |t| && t[i].order == k;
        RemoveStampAt(t, i);
        SliceOut(t, i);
        RemoveEntryPreserves(s, i, t[..i] + t[i + 1..]);
        var s' := RemoveStep(s, o).0;
        forall x | x in s'.realSet
          ensures 0 <= x.order && x.element in s'.observer && s'.observer[x.element] == x
        {
          assert x in t && x.order != k;
        }
      } else {
        assert forall x :: x in t ==> x.element != o;
      }
    }
  }

  /** pollFirst() returns the element with the least stamp and keeps both
      invariants. */
  lemma PollFirstPreserves<E>(s: Indexes<E>)
    requires WellFormed(s)
    ensures PollFirstStep(s).Failure? <==> s.realSet == []
    ensures PollFirstStep(s).Success? ==>
      var (s', x) := PollFirstStep(s).value;
      && IsLeast(s.realSet, s.realSet[0], Unbounded) && x == s.realSet[0].element
      && WellFormed(s')
      && x !in s'.observer
      && (Synced(s) ==> Synced(s') && Elements(s'.realSet) == Elements(s.realSet)[1..])
  {
    if s.realSet != [] {
      var t := s.realSet;
      assert PollFirstStep(s) == Success((Indexes(t[1..], s.observer - {t[0].element}), t[0].element));
      assert t[..0] + t[1..] == t[1..];
      RemoveEntryPreserves(s, 0, t[1..]);
      ElementsSlice(t, 1, |t|);
      assert t[1..|t|] == t[1..];
      FirstIsLeast(t);
    }
  }

  /** pollLast() returns the element with the greatest stamp, keeps both
      invariants and keeps stamps dense. */
  lemma PollLastPreserves<E>(s: Indexes<E>)
    requires WellFormed(s)
    ensures PollLastStep(s).Failure? <==> s.realSet == []
    ensures PollLastStep(s).Success? ==>
      var (s', x) := PollLastStep(s).value;
      && IsGreatest(s.realSet, s.realSet[|s.realSet| - 1], Unbounded) && x == s.realSet[|s.realSet| - 1].element
      && WellFormed(s')
      && x !in s'.observer
      && (Synced(s) ==> Synced(s') && Elements(s'.realSet) == Elements(s.realSet)[..|s.realSet| - 1])
      && (Dense(s.realSet) ==> Dense(s'.realSet))
  {
    if s.realSet != [] {
      var t := s.realSet;
      var n := |t| - 1;
      assert PollLastStep(s) == Success((Indexes(t[..n], s.observer - {t[n].element}), t[n].element));
      assert t[..n] + t[n + 1..] == t[..n];
      RemoveEntryPreserves(s, n, t[..n]);
      ElementsSlice(t, 0, n);
      assert t[0..n] == t[..n];
      LastIsGreatest(t);
    }
  }

  /** The first entry of an ordered tree has the least stamp. */
  lemma FirstIsLeast<E>(t: seq<Entry<E>>)
    requires Ordered(t) && t != []
    ensures IsLeast(t, t[0], Unbounded)
  {
    forall y | y in t ensures t[0].order <= y.order {
      var j :| 0 <= j < |t| && t[j] == y;
    }
  }

  /** The last entry of an ordered tree has the greatest stamp. */
  lemma LastIsGreatest<E>(t: seq<Entry<E>>)
    requires Ordered(t) && t != []
    ensures IsGreatest(t, t[|t| - 1], Unbounded)
  {
    forall y | y in t ensures y.order <= t[|t| - 1].order {
      var j :| 0 <= j < |t| && t[j] == y;
    }
  }

  /** Polling the first element until the set is empty yields the iteration
      order. */
  lemma {:induction false} DrainFirstIsIterationOrder<E>(s: Indexes<E>)
    ensures DrainFirst(s) == Elements(s.realSet)
    decreases |s.realSet|
  {
    if s.realSet != [] {
      var (next, x) := PollFirstStep(s).value;
      DrainFirstIsIterationOrder(next);
      assert Elements(s.realSet) == [x] + Elements(next.realSet);
    }
  }

  /** addAll() keeps a dense, synced set dense and synced, whatever c holds;
      its elements end up contained. */
  lemma {:induction false} AddAllKeepsDense<E>(s: Indexes<E>, c: seq<E>)
    requires Synced(s) && Dense(s.realSet)
    requires |s.realSet| + |c| <= IntMax as int
    ensures Synced(AddAllStep(s, c)) && Dense(AddAllStep(s, c).realSet)
    ensures |AddAllStep(s, c).realSet| <= |s.realSet| + |c|
    ensures AddAllStep(s, c).observer.Keys == s.observer.Keys + set x | x in c
  {
    if c != [] {
      var init := c[..|c| - 1];
      var last := c[|c| - 1];
      SnocSplit(c);
      AddAllKeepsDense(s, init);
      var mid := AddAllStep(s, init);
      if last !in mid.observer {
        AddToDense(mid, last);
      }
    }
  }

  /** Adding three new elements to the empty set stamps them 0, 1 and 2. */
  lemma ThreeAdds<E>(a: E, b: E, c: E)
    requires a != b && a != c && b != c
    ensures var s0 := AddAllStep(Indexes([], map[]), [a, b, c]);
      && s0.realSet == [Entry(0, a), Entry(1, b), Entry(2, c)]
      && a in s0.observer && s0.observer[a] == Entry(0, a)
      && b in s0.observer && s0.observer[b] == Entry(1, b)
      && c in s0.observer && s0.observer[c] == Entry(2, c)
      && forall x :: x in s0.observer ==> x == a || x == b || x == c
  {
    var empty: Indexes<E> := Indexes([], map[]);
    AddAllInInsertionOrder(empty, [a, b, c]);
    var s0 := AddAllStep(empty, [a, b, c]);
    var t := s0.realSet;
    assert Elements(empty.realSet) == [];
    assert Elements(t) == [a, b, c];
    assert Elements(t)[0] == t[0].element && Elements(t)[1] == t[1].element && Elements(t)[2] == t[2].element;
    assert t == [Entry(0, a), Entry(1, b), Entry(2, c)];
    assert t[0] in t && t[1] in t && t[2] in t;
    forall x | x in s0.observer ensures x == a || x == b || x == c {
      assert s0.observer[x] in t;
    }
  }

  /** Removing a from {a, b, c} leaves the entries stamped 1 and 2. */
  lemma ThenRemoveFirst<E>(a: E, b: E, c: E)
    requires a != b && a != c && b != c
    ensures var s1 := RemoveStep(AddAllStep(Indexes([], map[]), [a, b, c]), a).0;
      && s1.realSet == [Entry(1, b), Entry(2, c)]
      && c in s1.observer
      && forall x :: x in s1.observer ==> x == b || x == c
  {
    ThreeAdds(a, b, c);
    var s0 := AddAllStep(Indexes([], map[]), [a, b, c]);
    RemoveStampAt(s0.realSet, 0);
    assert RemoveStep(s0, a).0.realSet == s0.realSet[..0] + s0.realSet[1..];
  }

  /** The hazard on a concrete run: add a, b, c, then remove a. Adding d now
      reuses c's stamp 2: add answers false, d is contained but not iterated,
      and a later remove(d) takes c's entry out of the tree. */
  lemma StampReuseExample<E>(a: E, b: E, c: E, d: E)
    requires a != b && a != c && a != d && b != c && b != d && c != d
    ensures var s1 := RemoveStep(AddAllStep(Indexes([], map[]), [a, b, c]), a).0;
      && Elements(s1.realSet) == [b, c]
      && AddStep(s1, d) == (Indexes(s1.realSet, s1.observer[d := Entry(2, d)]), false)
      && RemoveStep(AddStep(s1, d).0, d).0.realSet == [Entry(1, b)]
      && c in RemoveStep(AddStep(s1, d).0, d).0.observer
  {
    ThenRemoveFirst(a, b, c);
    var s1 := RemoveStep(AddAllStep(Indexes([], map[]), [a, b, c]), a).0;
    assert Elements(s1.realSet) == [b, c];
    assert HasStamp(s1.realSet, 2) by {
      assert s1.realSet[1] == Entry(2, c);
    }
    assert SizeOf(s1.realSet) == 2;
    var s2 := Indexes(s1.realSet, s1.observer[d := Entry(2, d)]);
    assert AddStep(s1, d) == (s2, false);
    var t := [Entry(1, b), Entry(2, c)];
    assert Ordered(t);
    RemoveStampAt(t, 1);
    assert RemoveStep(s2, d).0.realSet == RemoveStamp(t, 2);
  }

  /** add a, b, c, remove b, add d: d gets stamp 2, which c holds, so add
      answers false and iteration yields a and c only, not a, c, d. */
  lemma RemoveMiddleThenAdd<E>(a: E, b: E, c: E, d: E)
    requires a != b && a != c && a != d && b != c && b != d && c != d
    ensures var s1 := RemoveStep(AddAllStep(Indexes([], map[]), [a, b, c]), b).0;
      && Elements(s1.realSet) == [a, c]
      && !AddStep(s1, d).1
      && d in AddStep(s1, d).0.observer
      && Elements(AddStep(s1, d).0.realSet) == [a, c]
  {
    ThreeAdds(a, b, c);
    var s0 := AddAllStep(Indexes([], map[]), [a, b, c]);
    RemoveStampAt(s0.realSet, 1);
    var s1 := RemoveStep(s0, b).0;
    assert s1.realSet == [Entry(0, a), Entry(2, c)];
    assert Elements(s1.realSet) == [a, c];
    assert d !in s1.observer;
    assert SizeOf(s1.realSet) == 2;
    assert HasStamp(s1.realSet, 2) by {
      assert s1.realSet[1] == Entry(2, c);
    }
    assert AddStep(s1, d) == (Indexes(s1.realSet, s1.observer[d := Entry(2, d)]), false);
  }

  // ---------------------------------------------------------------------
  // The evidently intended behaviour
  // ---------------------------------------------------------------------

  /** A stamp one past the last one in the tree. */
  function NextStamp<E>(t: seq<Entry<E>>): int {
    if t == [] then 0 else t[|t| - 1].order as int + 1
  }

  /** add() as intended: stamp the new element one past the last stamp, so the
      stamp is never taken. */
  function AddAfterLast<E(==)>(s: Indexes<E>, e: E): (Indexes<E>, bool)
    requires NextStamp(s.realSet) <= IntMax as int
  {
    if e in s.observer then (s, false)
    else
      var ele := Entry(NextStamp(s.realSet) as int32, e);
      (Indexes(Insert(s.realSet, ele), s.observer[e := ele]), true)
  }

  /** With the intended stamps, add() keeps the indexes synced from any synced
      state, removals included, reports whether the element was new, and
      appends it to the iteration order. */
  lemma AddAfterLastKeepsSynced<E>(s: Indexes<E>, e: E)
    requires Synced(s) && NextStamp(s.realSet) <= IntMax as int
    ensures var (s', added) := AddAfterLast(s, e);
      && Synced(s')
      && (added <==> e !in s.observer)
      && e in s'.observer
      && Elements(s'.realSet) == Elements(s.realSet) + (if added then [e] else [])
  {
    if e !in s.observer {
      var t := s.realSet;
      var ele := Entry(NextStamp(t) as int32, e);
      AboveLastStamp(t);
      assert !HasStamp(t, ele.order);
      InsertAtEnd(t, ele);
      AppendKeepsSynced(s, ele);
      assert AddAfterLast(s, e) == (Indexes(t + [ele], s.observer[e := ele]), true);
    }
  }

  /** Every stamp in an ordered tree lies below the next stamp. */
  lemma AboveLastStamp<E>(t: seq<Entry<E>>)
    requires Ordered(t)
    ensures forall y :: y in t ==> y.order as int < NextStamp(t)
  {
    forall y | y in t ensures y.order as int < NextStamp(t) {
      var j :| 0 <= j < |t| && t[j] == y;
      if j < |t| - 1 {
        assert t[j].order < t[|t| - 1].order;
      }
    }
  }

  /** Appending a new element's entry with a stamp above all others keeps the
      indexes synced and appends the element to the iteration order. */
  lemma AppendKeepsSynced<E>(s: Indexes<E>, ele: Entry<E>)
    requires Synced(s) && ele.element !in s.observer && 0 <= ele.order
    requires forall y :: y in s.realSet ==> y.order < ele.order
    ensures Synced(Indexes(s.realSet + [ele], s.observer[ele.element := ele]))
    ensures Elements(s.realSet + [ele]) == Elements(s.realSet) + [ele.element]
  {
    var t := s.realSet;
    var s' := Indexes(t + [ele], s.observer[ele.element := ele]);
    OrderedSnoc(t, ele);
    forall x | x in s'.realSet
      ensures 0 <= x.order && x.element in s'.observer && s'.observer[x.element] == x
    {
      if x != ele {
        assert x in t;
      }
    }
    forall k | k in s'.observer ensures s'.observer[k] in s'.realSet {
      if k != ele.element {
        assert s.observer[k] in t;
      }
    }
    assert Elements(t + [ele]) == Elements(t) + [ele.element];
  }

  /** Appending an entry whose stamp exceeds all others keeps a tree ordered. */
  lemma OrderedSnoc<E>(t: seq<Entry<E>>, x: Entry<E>)
    requires Ordered(t) && forall y :: y in t ==> y.order < x.order
    ensures Ordered(t + [x])
  {
    var r := t + [x];
    forall i, j | 0 <= i < j < |r| ensures r[i].order < r[j].order {
      assert r[i] == t[i];
      if j < |t| {
        assert r[j] == t[j];
      } else {
        assert t[i] in t;
      }
    }
  }

  /** containsAll(c) as intended: every element of c is contained. */
  function ContainsEvery<E(==)>(observer: map<E, Entry<E>>, c: seq<E>): bool {
    if c == [] then true
    else ContainsEvery(observer, c[..|c| - 1]) && c[|c| - 1] in observer
  }

  lemma {:induction false} ContainsEveryIff<E>(observer: map<E, Entry<E>>, c: seq<E>)
    ensures ContainsEvery(observer, c) <==> forall x :: x in c ==> x in observer
  {
    if c != [] {
      var init := c[..|c| - 1];
      ContainsEveryIff(observer, init);
      assert c == init + [c[|c| - 1]];
    }
  }

  /** An absent element is enough to make the intended containsAll false. */
  lemma ContainsAllOfAbsent<E>(observer: map<E, Entry<E>>, x: E)
    requires x !in observer
    ensures !ContainsEvery(observer, [x])
  {
    assert [x][..0] == [];
  }

  /** addAll(c) as intended: the answers of the add() calls, or-ed together
      starting from false. */
  function AddAllReporting<E(==)>(s: Indexes<E>, c: seq<E>): (Indexes<E>, bool) {
    if c == [] then (s, false)
    else
      var (mid, changed) := AddAllReporting(s, c[..|c| - 1]);
      var (s', added) := AddStep(mid, c[|c| - 1]);
      (s', changed || added)
  }

  /** From a dense, synced set the intended addAll answers true exactly when c
      holds an element that was not contained, and ends in the same state as
      the written addAll. */
  lemma {:induction false} AddAllReportingIff<E>(s: Indexes<E>, c: seq<E>)
    requires Synced(s) && Dense(s.realSet)
    requires |s.realSet| + |c| <= IntMax as int
    ensures AddAllReporting(s, c).0 == AddAllStep(s, c)
    ensures AddAllReporting(s, c).1 <==> exists x :: x in c && x !in s.observer
  {
    if c != [] {
      var init := c[..|c| - 1];
      var last := c[|c| - 1];
      SnocSplit(c);
      AddAllReportingIff(s, init);
      AddAllKeepsDense(s, init);
      var mid := AddAllStep(s, init);
      assert AddAllStep(s, c) == AddStep(mid, last).0;
      if last !in mid.observer {
        AddToDense(mid, last);
      }
    }
  }

  // ---------------------------------------------------------------------
  // The set itself
  // ---------------------------------------------------------------------

  function BoundFrom(k: int32, inclusive: bool): Bound {
    if inclusive then Inclusive(k) else Exclusive(k)
  }

  class NaturalOrderSet<E(==)> {
    var realSet: seq<Entry<E>>
    var observer: map<E, Entry<E>>

    function State(): Indexes<E>
      reads this
    {
      Indexes(realSet, observer)
    }

    ghost predicate Valid()
      reads this
    {
      WellFormed(State())
    }

    constructor ()
      ensures Valid() && Synced(State()) && Dense(realSet)
      ensures realSet == [] && observer == map[]
    {
      realSet := [];
      observer := map[];
    }

    // ----- navigation --------------------------------------------------

    /** The element with the greatest stamp below e's; null (a failure) when e
        is absent or has no lower neighbour. */
    function Lower(e: E): (r: Result<E, Failure>)
      reads this
      requires Valid()
      ensures r.Success? <==> e in observer && exists x :: x in realSet && x.order < observer[e].order
      ensures r.Success? ==> exists x :: x in realSet && IsGreatest(realSet, x, Exclusive(observer[e].order)) && x.element == r.value
      ensures r.Failure? ==> r.error == NullPointer
    {
      if e !in observer then Failure(NullPointer)
      else match GreatestUpTo(realSet, Exclusive(observer[e].order))
        case None => Failure(NullPointer)
        case Some(x) => Success(x.element)
    }

    /** The element with the greatest stamp at or below e's. */
    function Floor(e: E): (r: Result<E, Failure>)
      reads this
      requires Valid()
      ensures r.Success? <==> e in observer && exists x :: x in realSet && x.order <= observer[e].order
      ensures r.Success? ==> exists x :: x in realSet && IsGreatest(realSet, x, Inclusive(observer[e].order)) && x.element == r.value
      ensures r.Failure? ==> r.error == NullPointer
    {
      if e !in observer then Failure(NullPointer)
      else match GreatestUpTo(realSet, Inclusive(observer[e].order))
        case None => Failure(NullPointer)
        case Some(x) => Success(x.element)
    }

    /** The element with the least stamp at or above e's. */
    function Ceiling(e: E): (r: Result<E, Failure>)
      reads this
      requires Valid()
      ensures r.Success? <==> e in observer && exists x :: x in realSet && x.order >= observer[e].order
      ensures r.Success? ==> exists x :: x in realSet && IsLeast(realSet, x, Inclusive(observer[e].order)) && x.element == r.value
      ensures r.Failure? ==> r.error == NullPointer
    {
      if e !in observer then Failure(NullPointer)
      else match LeastFrom(realSet, Inclusive(observer[e].order))
        case None => Failure(NullPointer)
        case Some(x) => Success(x.element)
    }

    /** The element with the least stamp above e's. */
    function Higher(e: E): (r: Result<E, Failure>)
      reads this
      requires Valid()
      ensures r.Success? <==> e in observer && exists x :: x in realSet && x.order > observer[e].order
      ensures r.Success? ==> exists x :: x in realSet && IsLeast(realSet, x, Exclusive(observer[e].order)) && x.element == r.value
      ensures r.Failure? ==> r.error == NullPointer
    {
      if e !in observer then Failure(NullPointer)
      else match LeastFrom(realSet, Exclusive(observer[e].order))
        case None => Failure(NullPointer)
        case Some(x) => Success(x.element)
    }

    // ----- first, last and polling -------------------------------------

    function First(): (r: Result<E, Failure>)
      reads this
      requires Valid()
      ensures r.Success? <==> realSet != []
      ensures r.Success? ==> exists x :: x in realSet && IsLeast(realSet, x, Unbounded) && x.element == r.value
      ensures r.Failure? ==> r.error == NoSuchElement
    {
      if realSet == [] then Failure(NoSuchElement)
      else
        assert forall y :: y in realSet ==> realSet[0].order <= y.order;
        Success(realSet[0].element)
    }

    function Last(): (r: Result<E, Failure>)
      reads this
      requires Valid()
      ensures r.Success? <==> realSet != []
      ensures r.Success? ==> exists x :: x in realSet && IsGreatest(realSet, x, Unbounded) && x.element == r.value
      ensures r.Failure? ==> r.error == NoSuchElement
    {
      if realSet == [] then Failure(NoSuchElement)
      else
        var n := |realSet| - 1;
        assert forall y :: y in realSet ==> y.order <= realSet[n].order;
        Success(realSet[n].element)
    }

    /** Takes the element with the least stamp out of both indexes. */
    method PollFirst() returns (r: Result<E, Failure>)
      requires Valid()
      modifies this
      ensures Valid()
      ensures r.Success? <==> old(realSet) != []
      ensures r.Failure? ==> r.error == NullPointer && State() == old(State())
      ensures r.Success? ==> PollFirstStep(old(State())) == Success((State(), r.value))
      ensures r.Success? ==> r == old(First()) && r.value !in observer
    {
      if realSet == [] {
        return Failure(NullPointer);
      }
      PollFirstPreserves(State());
      var ele := realSet[0];
      realSet := realSet[1..];
      observer := observer - {ele.element};
      r := Success(ele.element);
    }

    /** Takes the element with the greatest stamp out of both indexes. */
    method PollLast() returns (r: Result<E, Failure>)
      requires Valid()
      modifies this
      ensures Valid()
      ensures r.Success? <==> old(realSet) != []
      ensures r.Failure? ==> r.error == NullPointer && State() == old(State())
      ensures r.Success? ==> PollLastStep(old(State())) == Success((State(), r.value))
      ensures r.Success? ==> r == old(Last()) && r.value !in observer
    {
      if realSet == [] {
        return Failure(NullPointer);
      }
      PollLastPreserves(State());
      var ele := realSet[|realSet| - 1];
      realSet := realSet[..|realSet| - 1];
      observer := observer - {ele.element};
      r := Success(ele.element);
    }

    // ----- size, membership and iteration -------------------------------

    /** The tree's size; it counts the contained elements when the indexes agree. */
    function Size(): (n: int32)
      reads this
      requires Valid()
      ensures 0 <= n
      ensures Synced(State()) && |observer| <= IntMax as int ==> n as int == |observer|
    {
      SyncedViews(State());
      SizeOf(realSet)
    }

    function IsEmpty(): (b: bool)
      reads this
      requires Valid()
      ensures b <==> realSet == []
      ensures Synced(State()) ==> (b <==> observer == map[])
    {
      SyncedViews(State());
      |realSet| == 0
    }

    /** Membership is asked of the observer; it agrees with iteration when the
        indexes agree. */
    function Contains(o: E): (b: bool)
      reads this
      requires Valid()
      ensures b <==> o in observer
      ensures Synced(State()) ==> (b <==> o in Iterator())
    {
      SyncedViews(State());
      o in observer
    }

    /** The elements in ascending stamp order. */
    function Iterator(): (s: seq<E>)
      reads this
      requires Valid()
      ensures |s| == |realSet| && forall i :: 0 <= i < |s| ==> s[i] == realSet[i].element
      ensures Synced(State()) ==> (forall e :: e in s ==> e in observer) && (forall e :: e in observer ==> e in s)
    {
      SyncedViews(State());
      Elements(realSet)
    }

    /** The elements in descending stamp order; no stamp is touched. */
    function DescendingIterator(): (s: seq<E>)
      reads this
      requires Valid()
      ensures |s| == |realSet|
      ensures forall i :: 0 <= i < |s| ==> s[i] == Iterator()[|s| - 1 - i]
    {
      var t := Elements(realSet);
      seq(|t|, i requires 0 <= i < |t| => t[|t| - 1 - i])
    }

    /** toArray(): the elements in iteration order. */
    function ToArray(): (s: seq<E>)
      reads this
      requires Valid()
      ensures s == Iterator()
    {
      Elements(realSet)
    }

    // ----- range views (membership only) ------------------------------

    /** subSet(from, fromInclusive, to, toInclusive): the elements whose stamps
        lie between from's and to's, copied out. The tree refuses a range whose
        ends compare (in 32 bits) the wrong way round; on stamps, which are
        never negative, that is the plain order. */
    function SubSet(from: E, fromInclusive: bool, to: E, toInclusive: bool): (r: Result<set<E>, Failure>)
      reads this
      requires Valid()
      ensures r.Failure? ==> r.error == NullPointer || r.error == IllegalArgument
      ensures r == Failure(NullPointer) <==> from !in observer || to !in observer
      ensures r == Failure(IllegalArgument) <==>
        from in observer && to in observer && observer[from].order > observer[to].order
      ensures r.Success? ==>
        var lo, hi := BoundFrom(observer[from].order, fromInclusive), BoundFrom(observer[to].order, toInclusive);
        && (forall x :: x in realSet && Above(x.order, lo) && Below(x.order, hi) ==> x.element in r.value)
        && (forall e :: e in r.value ==> exists x :: x in realSet && x.element == e && Above(x.order, lo) && Below(x.order, hi))
    {
      if from !in observer || to !in observer then Failure(NullPointer)
      else if Compare(observer[from].order, observer[to].order) > 0 then
        CompareOnStamps(observer[from].order, observer[to].order);
        Failure(IllegalArgument)
      else
        CompareOnStamps(observer[from].order, observer[to].order);
        Success(ElementsBetween(realSet, BoundFrom(observer[from].order, fromInclusive), BoundFrom(observer[to].order, toInclusive)))
    }

    /** headSet(to, inclusive): the elements whose stamps lie below to's. */
    function HeadSet(to: E, inclusive: bool): (r: Result<set<E>, Failure>)
      reads this
      requires Valid()
      ensures r.Failure? <==> to !in observer
      ensures r.Failure? ==> r.error == NullPointer
      ensures r.Success? ==>
        var hi := BoundFrom(observer[to].order, inclusive);
        && (forall x :: x in realSet && Below(x.order, hi) ==> x.element in r.value)
        && (forall e :: e in r.value ==> exists x :: x in realSet && x.element == e && Below(x.order, hi))
    {
      if to !in observer then Failure(NullPointer)
      else Success(ElementsBetween(realSet, Unbounded, BoundFrom(observer[to].order, inclusive)))
    }

    /** tailSet(from, inclusive): the elements whose stamps lie above from's. */
    function TailSet(from: E, inclusive: bool): (r: Result<set<E>, Failure>)
      reads this
      requires Valid()
      ensures r.Failure? <==> from !in observer
      ensures r.Failure? ==> r.error == NullPointer
      ensures r.Success? ==>
        var lo := BoundFrom(observer[from].order, inclusive);
        && (forall x :: x in realSet && Above(x.order, lo) ==> x.element in r.value)
        && (forall e :: e in r.value ==> exists x :: x in realSet && x.element == e && Above(x.order, lo))
    {
      if from !in observer then Failure(NullPointer)
      else Success(ElementsBetween(realSet, BoundFrom(observer[from].order, inclusive), Unbounded))
    }

    /** subSet(from, to): from inclusive, to exclusive. */
    function SortedSubSet(from: E, to: E): (r: Result<set<E>, Failure>)
      reads this
      requires Valid()
      ensures r == SubSet(from, true, to, false)
    {
      SubSet(from, true, to, false)
    }

    /** headSet(to): to exclusive. */
    function SortedHeadSet(to: E): (r: Result<set<E>, Failure>)
      reads this
      requires Valid()
      ensures r == HeadSet(to, false)
    {
      HeadSet(to, false)
    }

    /** tailSet(from): from inclusive. */
    function SortedTailSet(from: E): (r: Result<set<E>, Failure>)
      reads this
      requires Valid()
      ensures r == TailSet(from, true)
    {
      TailSet(from, true)
    }

    /** comparator(): compares two elements by their observer stamps in 32-bit
        arithmetic; an absent element is a null dereference. */
    function CompareElements(o1: E, o2: E): (r: Result<int32, Failure>)
      reads this
      requires Valid()
      ensures r.Failure? <==> o1 !in observer || o2 !in observer
      ensures r.Failure? ==> r.error == NullPointer
      ensures r.Success? ==>
        && (r.value < 0 <==> observer[o1].order < observer[o2].order)
        && (r.value == 0 <==> observer[o1].order == observer[o2].order)
        && (r.value > 0 <==> observer[o1].order > observer[o2].order)
    {
      if o1 !in observer || o2 !in observer then Failure(NullPointer)
      else
        CompareOnStamps(observer[o1].order, observer[o2].order);
        Success(Compare(observer[o1].order, observer[o2].order))
    }

    // ----- state changes ---------------------------------------------

    /** add(e): see AddStep. A present element changes nothing. */
    method Add(e: E) returns (added: bool)
      requires Valid()
      modifies this
      ensures Valid()
      ensures (State(), added) == AddStep(old(State()), e)
      ensures old(e in observer) ==> !added && State() == old(State())
      ensures e in observer
    {
      AddPreservesWellFormed(State(), e);
      if e in observer {
        return false;
      }
      var ele := Entry(SizeOf(realSet), e);
      observer := observer[e := ele];
      added := !HasStamp(realSet, ele.order);
      if added {
        realSet := Insert(realSet, ele);
      }
    }

    /** remove(o): see RemoveStep. An absent element changes nothing. */
    method Remove(o: E) returns (removed: bool)
      requires Valid()
      modifies this
      ensures Valid()
      ensures (State(), removed) == RemoveStep(old(State()), o)
      ensures removed <==> old(o in observer)
      ensures !removed ==> State() == old(State())
      ensures o !in observer
    {
      RemoveKeepsSynced(State(), o);
      var ele := if o in observer then Some(observer[o]) else None;
      if ele.None? {
        return false;
      }
      realSet := RemoveStamp(realSet, ele.value.order);
      observer := observer - {o};
      removed := true;
    }

    /** addAll(c): add() on each element in turn; the answers are or-ed into an
        accumulator that starts at true, so the answer is always true. */
    method AddAll(c: seq<E>) returns (result: bool)
      requires Valid()
      modifies this
      ensures Valid()
      ensures State() == AddAllStep(old(State()), c)
      ensures result
    {
      result := true;
      for i := 0 to |c|
        invariant Valid()
        invariant State() == AddAllStep(old(State()), c[..i])
        invariant result
      {
        var added := Add(c[i]);
        result := result || added;
        assert c[..i + 1][..i] == c[..i];
      }
      assert c[..|c|] == c;
    }

    /** containsAll(c): the memberships are or-ed into an accumulator that
        starts at true, so the answer is always true. */
    method ContainsAll(c: seq<E>) returns (result: bool)
      ensures result
    {
      result := true;
      for i := 0 to |c|
        invariant result
      {
        var present := c[i] in observer;
        result := result || present;
      }
    }

    method Clear()
      modifies this
      ensures Valid() && Synced(State()) && Dense(realSet)
      ensures realSet == [] && observer == map[]
    {
      realSet := [];
      observer := map[];
    }

    // ----- unsupported operations -----------------------------------

    function RetainAll(c: seq<E>): (r: Result<bool, Failure>)
      ensures r.Failure? && r.error == Unsupported("NaturalOrderSet retainAll")
    {
      Failure(Unsupported("NaturalOrderSet retainAll"))
    }

    function RemoveAll(c: seq<E>): (r: Result<bool, Failure>)
      ensures r.Failure? && r.error == Unsupported("NaturalOrderSet removeAll")
    {
      Failure(Unsupported("NaturalOrderSet removeAll"))
    }

    /** toArray(T[]): always throws. */
    function ToTypedArray(a: seq<E>): (r: Result<seq<E>, Failure>)
      ensures r.Failure? && r.error == Unsupported("NaturalOrderSet toArray!!")
    {
      Failure(Unsupported("NaturalOrderSet toArray!!"))
    }
  }

  /** Two entries of an ordered tree with the same stamp are the same entry. */
  lemma SameStampSameEntry<E>(t: seq<Entry<E>>, x: Entry<E>, j: nat)
    requires Ordered(t) && x in t && j < |t| && x.order == t[j].order
    ensures x == t[j]
  {
    var m :| 0 <= m < |t| && t[m] == x;
  }

  /** floor and ceiling of an entry's own stamp find that entry. */
  lemma FloorCeilingAt<E>(t: seq<Entry<E>>, i: nat)
    requires Ordered(t) && i < |t|
    ensures GreatestUpTo(t, Inclusive(t[i].order)) == Some(t[i])
    ensures LeastFrom(t, Inclusive(t[i].order)) == Some(t[i])
  {
    assert t[i] in t;
    SameStampSameEntry(t, GreatestUpTo(t, Inclusive(t[i].order)).value, i);
    SameStampSameEntry(t, LeastFrom(t, Inclusive(t[i].order)).value, i);
  }

  /** lower of an entry's stamp finds the entry before it, if any. */
  lemma LowerAt<E>(t: seq<Entry<E>>, i: nat)
    requires Ordered(t) && i < |t|
    ensures GreatestUpTo(t, Exclusive(t[i].order)) == if i == 0 then None else Some(t[i - 1])
  {
    var r := GreatestUpTo(t, Exclusive(t[i].order));
    if i == 0 {
      forall x | x in t ensures x.order >= t[0].order {
        var m :| 0 <= m < |t| && t[m] == x;
      }
    } else {
      assert t[i - 1] in t;
      var m :| 0 <= m < |t| && t[m] == r.value;
      assert m == i - 1;
    }
  }

  /** higher of an entry's stamp finds the entry after it, if any. */
  lemma HigherAt<E>(t: seq<Entry<E>>, i: nat)
    requires Ordered(t) && i < |t|
    ensures LeastFrom(t, Exclusive(t[i].order)) == if i == |t| - 1 then None else Some(t[i + 1])
  {
    var r := LeastFrom(t, Exclusive(t[i].order));
    if i == |t| - 1 {
      forall x | x in t ensures x.order <= t[i].order {
        var m :| 0 <= m < |t| && t[m] == x;
      }
    } else {
      assert t[i + 1] in t;
      var m :| 0 <= m < |t| && t[m] == r.value;
      assert m == i + 1;
    }
  }

  /** For an element the iteration yields, floor and ceiling return it, and
      lower and higher return its neighbours in iteration order, or fail at
      either end. */
  lemma NavigateFromMember<E>(nos: NaturalOrderSet<E>, i: nat)
    requires nos.Valid() && i < |nos.realSet|
    ensures var t, e := nos.realSet, nos.realSet[i].element;
      && nos.Floor(e) == Success(e)
      && nos.Ceiling(e) == Success(e)
      && nos.Lower(e) == (if i == 0 then Failure(NullPointer) else Success(t[i - 1].element))
      && nos.Higher(e) == (if i == |t| - 1 then Failure(NullPointer) else Success(t[i + 1].element))
  {
    var t := nos.realSet;
    assert t[i] in t;
    assert nos.observer[t[i].element] == t[i];
    FloorCeilingAt(t, i);
    LowerAt(t, i);
    HigherAt(t, i);
  }
}
