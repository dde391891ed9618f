/** sort.Slice and sort.SliceStable, specified over an arbitrary comparison. */
module Sorting {
  import opened Sequences

  /** What the sort package asks of a comparison: a strict weak ordering. */
  ghost predicate StrictWeakOrder<T(!new)>(less: (T, T) -> bool) {
    && (forall a, b :: less(a, b) ==> !less(b, a))
    && (forall a, b, c :: less(a, c) ==> less(a, b) || less(b, c))
  }

  ghost predicate Sorted<T>(less: (T, T) -> bool, xs: seq<T>) {
    forall i, j :: 0 <= i < j < |xs| ==> !less(xs[j], xs[i])
  }

  /** Each element strictly below the next: sorted with no ties. */
  ghost predicate StrictlySorted<T>(less: (T, T) -> bool, xs: seq<T>) {
    forall i, j :: 0 <= i < j < |xs| ==> less(xs[i], xs[j])
  }

  function Insert<T>(less: (T, T) -> bool, x: T, xs: seq<T>): (r: seq<T>)
    ensures |r| == |xs| + 1
    ensures multiset(r) == multiset{x} + multiset(xs)
  {
    if xs == [] then [x]
    else if less(xs[0], x) then
      assert xs == [xs[0]] + xs[1..];
      [xs[0]] + Insert(less, x, xs[1..])
    else [x] + xs
  }

  /** The result of sort.SliceStable. */
  function StableSort<T>(less: (T, T) -> bool, xs: seq<T>): (r: seq<T>)
    ensures multiset(r) == multiset(xs)
  {
    if xs == [] then [] else
      assert xs == [xs[0]] + xs[1..];
      Insert(less, xs[0], StableSort(less, xs[1..]))
  }

  lemma {:induction false} InsertSorted<T(!new)>(less: (T, T) -> bool, x: T, xs: seq<T>)
    requires StrictWeakOrder(less) && Sorted(less, xs)
    ensures Sorted(less, Insert(less, x, xs))
  {
    if xs != [] && less(xs[0], x) {
      var rest := Insert(less, x, xs[1..]);
      InsertSorted(less, x, xs[1..]);
      forall y | y in rest ensures !less(y, xs[0]) {
        assert y in multiset(rest);
        if y in xs[1..] {
          var k :| 0 <= k < |xs[1..]| && xs[1..][k] == y;
          assert xs[k + 1] == y;
        }
      }
      var r := Insert(less, x, xs);
      assert r == [xs[0]] + rest;
    }
  }

  lemma {:induction false} StableSortSorted<T(!new)>(less: (T, T) -> bool, xs: seq<T>)
    requires StrictWeakOrder(less)
    ensures Sorted(less, StableSort(less, xs))
  {
    if xs != [] {
      StableSortSorted(less, xs[1..]);
      InsertSorted(less, xs[0], StableSort(less, xs[1..]));
    }
  }

  /** A sequence that is in order already is left as it is. */
  lemma {:induction false} StableSortFixpoint<T(!new)>(less: (T, T) -> bool, xs: seq<T>)
    requires Sorted(less, xs)
    ensures StableSort(less, xs) == xs
  {
    if xs != [] {
      StableSortFixpoint(less, xs[1..]);
      assert xs == [xs[0]] + xs[1..];
    }
  }

  /** The elements of xs that tie with pivot, in their order. */
  function Ties<T>(less: (T, T) -> bool, pivot: T, xs: seq<T>): seq<T> {
    if xs == [] then []
    else if less(xs[0], pivot) || less(pivot, xs[0]) then Ties(less, pivot, xs[1..])
    else [xs[0]] + Ties(less, pivot, xs[1..])
  }

  lemma {:induction false} InsertStable<T(!new)>(less: (T, T) -> bool, x: T, xs: seq<T>, pivot: T)
    requires StrictWeakOrder(less)
    ensures Ties(less, pivot, Insert(less, x, xs)) == Ties(less, pivot, [x] + xs)
  {
    assert ([x] + xs)[1..] == xs;
    if xs != [] && less(xs[0], x) {
      InsertStable(less, x, xs[1..], pivot);
      assert Insert(less, x, xs)[1..] == Insert(less, x, xs[1..]);
      assert ([x] + xs[1..])[1..] == xs[1..];
    }
  }

  /** Stability: elements that tie keep the order they came in. */
  lemma {:induction false} StableSortStable<T(!new)>(less: (T, T) -> bool, xs: seq<T>, pivot: T)
    requires StrictWeakOrder(less)
    ensures Ties(less, pivot, StableSort(less, xs)) == Ties(less, pivot, xs)
  {
    if xs != [] {
      var tail := StableSort(less, xs[1..]);
      StableSortStable(less, xs[1..], pivot);
      InsertStable(less, xs[0], tail, pivot);
      assert ([xs[0]] + tail)[1..] == tail;
    }
  }

  /** sort.Slice: some sorted arrangement, with no promise about ties. */
  method SortSlice<T(!new)>(less: (T, T) -> bool, xs: seq<T>) returns (ys: seq<T>)
    requires StrictWeakOrder(less)
    ensures Sorted(less, ys) && multiset(ys) == multiset(xs)
  {
    ys := StableSort(less, xs);
    StableSortSorted(less, xs);
  }

  /** With no ties there is only one sorted arrangement of a set of elements. */
  lemma {:induction false} StrictlySortedUnique<T(!new)>(less: (T, T) -> bool, xs: seq<T>, ys: seq<T>)
    requires StrictWeakOrder(less)
    requires StrictlySorted(less, xs) && StrictlySorted(less, ys)
    requires forall x :: x in xs <==> x in ys
    ensures xs == ys
  {
    if xs == [] {
      assert forall k :: 0 <= k < |ys| ==> ys[k] in xs;
    } else {
      assert xs[0] in ys && ys != [] && ys[0] in xs;
      var i :| 0 <= i < |ys| && ys[i] == xs[0];
      var j :| 0 <= j < |xs| && xs[j] == ys[0];
      assert xs[0] == ys[0];
      HeadNotRepeated(less, xs);
      HeadNotRepeated(less, ys);
      assert xs == [xs[0]] + xs[1..] && ys == [ys[0]] + ys[1..];
      forall x ensures x in xs[1..] <==> x in ys[1..] {
        assert x in xs <==> x == xs[0] || x in xs[1..];
        assert x in ys <==> x == ys[0] || x in ys[1..];
      }
      StrictlySortedUnique(less, xs[1..], ys[1..]);
      assert xs == [xs[0]] + xs[1..] && ys == [ys[0]] + ys[1..];
    }
  }

  lemma HeadNotRepeated<T(!new)>(less: (T, T) -> bool, xs: seq<T>)
    requires StrictWeakOrder(less) && StrictlySorted(less, xs) && xs != []
    ensures xs[0] !in xs[1..]
  {
    forall k | 0 <= k < |xs[1..]| ensures xs[1..][k] != xs[0] {
      assert less(xs[0], xs[k + 1]);
    }
  }

  lemma HeadsTie<T(!new)>(less: (T, T) -> bool, xs: seq<T>, ys: seq<T>)
    requires Sorted(less, xs) && Sorted(less, ys) && multiset(xs) == multiset(ys) && xs != [] && ys != []
    requires StrictWeakOrder(less)
    ensures ys[0] in xs && !less(xs[0], ys[0]) && !less(ys[0], xs[0])
  {
    assert ys[0] in multiset(xs) && xs[0] in multiset(ys);
    var i :| 0 <= i < |ys| && ys[i] == xs[0];
    var j :| 0 <= j < |xs| && xs[j] == ys[0];
  }

  ghost predicate TiesAreEqual<T(!new)>(less: (T, T) -> bool, xs: seq<T>) {
    forall a, b :: a in xs && b in xs && !less(a, b) && !less(b, a) ==> a == b
  }

  lemma TiesInTail<T(!new)>(less: (T, T) -> bool, xs: seq<T>)
    requires xs != [] && TiesAreEqual(less, xs)
    ensures TiesAreEqual(less, xs[1..])
  {
    assert forall a :: a in xs[1..] ==> a in xs;
  }

  lemma SortedTail<T(!new)>(less: (T, T) -> bool, xs: seq<T>)
    requires xs != [] && Sorted(less, xs)
    ensures Sorted(less, xs[1..])
  {
  }

  /** Nor does the order of ties matter when elements that tie are equal. */
  lemma {:induction false} SortedUnique<T(!new)>(less: (T, T) -> bool, xs: seq<T>, ys: seq<T>)
    requires StrictWeakOrder(less) && Sorted(less, xs) && Sorted(less, ys)
    requires multiset(xs) == multiset(ys)
    requires TiesAreEqual(less, xs)
    ensures xs == ys
  {
    assert |multiset(xs)| == |multiset(ys)|;
    if xs != [] {
      HeadsTie(less, xs, ys);
      assert xs[0] in xs && xs[0] == ys[0];
      Front(xs);
      Front(ys);
      TiesInTail(less, xs);
      SortedTail(less, xs);
      SortedTail(less, ys);
      SortedUnique(less, xs[1..], ys[1..]);
    }
  }
}
