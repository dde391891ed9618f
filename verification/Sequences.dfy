/** General facts about sequences, the multisets of their elements, and finite sets. */
module Sequences {

  lemma TakeSnoc<T>(s: seq<T>, i: nat)
    requires i < |s|
    ensures s[..i + 1] == s[..i] + [s[i]]
  {
  }

  lemma DropDrop<T>(s: seq<T>, i: nat, j: nat)
    requires i + j <= |s|
    ensures s[i..][j..] == s[i + j..]
  {
  }

  /** Leaving out position i of s, seen from its head. */
  lemma TailRemove<T>(s: seq<T>, i: nat)
    requires 0 < i < |s|
    ensures [s[0]] + (s[1..][..i - 1] + s[1..][i..]) == s[..i] + s[i + 1..]
  {
  }

  lemma RemoveAt<T>(s: seq<T>, i: nat)
    requires i < |s|
    ensures multiset(s[..i] + s[i + 1..]) == multiset(s) - multiset{s[i]}
  {
    assert s == s[..i] + [s[i]] + s[i + 1..];
  }

  /** No element occurs twice. */
  predicate Distinct<T(==)>(s: seq<T>) {
    forall i, j :: 0 <= i < j < |s| ==> s[i] != s[j]
  }

  lemma {:induction false} CountAtMostOne<T>(s: seq<T>, x: T)
    requires Distinct(s)
    ensures multiset(s)[x] <= 1
  {
    if s != [] {
      var init, last := s[..|s| - 1], s[|s| - 1];
      CountAtMostOne(init, x);
      assert s == init + [last];
      if x == last { assert x !in init; }
    }
  }

  lemma CountAtLeastTwo<T>(s: seq<T>, i: nat, j: nat)
    requires i < j < |s| && s[i] == s[j]
    ensures multiset(s)[s[i]] >= 2
  {
    assert s == s[..j] + s[j..];
    assert s[..j][i] == s[i] && s[j..][0] == s[i];
  }

  /** A rearrangement of distinct elements is distinct. */
  lemma PermutedDistinct<T>(s: seq<T>, t: seq<T>)
    requires Distinct(s) && multiset(s) == multiset(t)
    ensures Distinct(t)
  {
    forall i, j | 0 <= i < j < |t| ensures t[i] != t[j] {
      if t[i] == t[j] {
        CountAtLeastTwo(t, i, j);
        CountAtMostOne(s, t[i]);
      }
    }
  }

  /** Taking x away from both leaves the same elements: they were the same. */
  lemma PutBack<T>(a: multiset<T>, b: multiset<T>, x: T)
    requires x in a && x in b && a - multiset{x} == b - multiset{x}
    ensures a == b
  {
    assert a == a - multiset{x} + multiset{x} && b == b - multiset{x} + multiset{x};
  }

  lemma Front<T>(s: seq<T>)
    requires s != []
    ensures s == [s[0]] + s[1..] && multiset(s[1..]) == multiset(s) - multiset{s[0]}
  {
    assert s == [s[0]] + s[1..];
  }

  lemma Back<T>(s: seq<T>)
    requires s != []
    ensures multiset(s[..|s| - 1]) == multiset(s) - multiset{s[|s| - 1]}
  {
    assert s == s[..|s| - 1] + [s[|s| - 1]];
  }

  lemma OneMore<T>(a: set<T>, x: T)
    ensures |a + {x}| <= |a| + 1
  {
    if x in a { assert a + {x} == a; }
  }

  lemma SubsetSmaller<T>(a: set<T>, b: set<T>)
    requires a <= b
    ensures |a| <= |b| && (|a| == |b| ==> a == b)
  {
    assert b == a + (b - a);
  }
}
