/** Effective capabilities and the string lists behind them (auth/accounts.go). */
module Capabilities {
  import opened Sequences
  import opened Sorting
  import opened Accounts
  import Text

  lemma LessIsOrder()
    ensures StrictWeakOrder(Text.Less)
  {
    forall a, b | Text.Less(a, b) ensures !Text.Less(b, a) { Text.LessAsymmetric(a, b); }
    forall a, b, c | Text.Less(a, c) ensures Text.Less(a, b) || Text.Less(b, c) {
      Text.LessTotal(a, b);
      if Text.Less(b, a) { Text.LessTransitive(b, a, c); }
    }
  }

  /** Distinct strings come out of sort.Strings strictly ascending. */
  lemma SortedStrings(xs: seq<string>)
    requires Distinct(xs)
    ensures StrictlySorted(Text.Less, StableSort(Text.Less, xs))
    ensures forall x :: x in StableSort(Text.Less, xs) <==> x in xs
  {
    var ys := StableSort(Text.Less, xs);
    LessIsOrder();
    StableSortSorted(Text.Less, xs);
    PermutedDistinct(xs, ys);
    forall i, j | 0 <= i < j < |ys| ensures Text.Less(ys[i], ys[j]) { Text.LessTotal(ys[i], ys[j]); }
    forall x ensures x in ys <==> x in xs { assert x in multiset(ys) <==> x in multiset(xs); }
  }

  // ----- DedupeStrings --------------------------------------------------------------------------

  function Admit(seen: seq<string>, value: string): seq<string> {
    if value == "" || value in seen then seen else seen + [value]
  }

  /** The first occurrence of every non-blank value, trimmed. */
  function FirstOccurrences(values: seq<string>): seq<string> {
    if values == [] then []
    else Admit(FirstOccurrences(values[..|values| - 1]), Text.TrimSpace(values[|values| - 1]))
  }

  lemma FirstOccurrencesSnoc(values: seq<string>, i: nat)
    requires i < |values|
    ensures FirstOccurrences(values[..i + 1]) == Admit(FirstOccurrences(values[..i]), Text.TrimSpace(values[i]))
  {
    assert values[..i + 1][..i] == values[..i];
  }

  lemma {:induction false} FirstOccurrencesDistinct(values: seq<string>)
    ensures Distinct(FirstOccurrences(values))
  {
    if values != [] { FirstOccurrencesDistinct(values[..|values| - 1]); }
  }

  lemma {:induction false} FirstOccurrencesMember(values: seq<string>, x: string)
    ensures x in FirstOccurrences(values) <==> x != "" && exists v :: v in values && Text.TrimSpace(v) == x
  {
    if values != [] {
      var init, last := values[..|values| - 1], values[|values| - 1];
      FirstOccurrencesMember(init, x);
      assert forall v :: v in values <==> v in init || v == last by { assert values == init + [last]; }
    }
  }

  function Dedupe(values: seq<string>): seq<string> {
    StableSort(Text.Less, FirstOccurrences(values))
  }

  /** The set of trimmed non-blank values in ascending order, each once; that determines the list. */
  lemma DedupeMeaning(values: seq<string>)
    ensures StrictlySorted(Text.Less, Dedupe(values))
    ensures forall x :: x in Dedupe(values) <==> x != "" && exists v :: v in values && Text.TrimSpace(v) == x
  {
    FirstOccurrencesDistinct(values);
    SortedStrings(FirstOccurrences(values));
    forall x ensures x in Dedupe(values) <==> x != "" && exists v :: v in values && Text.TrimSpace(v) == x {
      FirstOccurrencesMember(values, x);
    }
  }

  method DedupeStrings(values: seq<string>) returns (out: seq<string>)
    ensures out == Dedupe(values)
  {
    var seen: set<string> := {};
    out := [];
    for i := 0 to |values|
      invariant out == FirstOccurrences(values[..i])
      invariant forall x :: x in seen <==> x in out
    {
      var value := Text.TrimSpace(values[i]);
      FirstOccurrencesSnoc(values, i);
      if value != "" && value !in seen {
        seen := seen + {value};
        out := out + [value];
      }
    }
    assert values[..|values|] == values;
    out := StableSort(Text.Less, out);
  }

  // ----- Capabilities ---------------------------------------------------------------------------

  /** Some role of the account names the capability. */
  ghost predicate Named(a: Account, roles: seq<Role>, capability: string) {
    exists r :: r in roles && r.id in a.roles && capability in r.capabilities
  }

  predicate HasCapability(capabilities: seq<string>, key: string) {
    exists c :: c in capabilities && (c == "*" || c == key)
  }

  method CheckCapability(capabilities: seq<string>, key: string) returns (has: bool)
    ensures has <==> HasCapability(capabilities, key)
  {
    for i := 0 to |capabilities|
      invariant forall k :: 0 <= k < i ==> capabilities[k] != "*" && capabilities[k] != key
    {
      if capabilities[i] == "*" || capabilities[i] == key {
        assert capabilities[i] in capabilities;
        return true;
      }
    }
    return false;
  }

  /** What the nested loops have collected from the first i role names, and from the first j roles for
      the next name. */
  ghost predicate Collected(a: Account, roles: seq<Role>, i: nat, j: nat, found: set<string>)
    requires i <= |a.roles| && j <= |roles| && (i < |a.roles| || j == 0)
  {
    forall c :: c in found <==>
      || (exists r :: r in roles && r.id in a.roles[..i] && c in r.capabilities)
      || (exists r :: r in roles[..j] && i < |a.roles| && r.id == a.roles[i] && c in r.capabilities)
  }

  lemma CollectRole(a: Account, roles: seq<Role>, i: nat, j: nat, before: set<string>, after: set<string>)
    requires i < |a.roles| && j < |roles| && Collected(a, roles, i, j, before)
    requires after == if roles[j].id == a.roles[i] then before + (set c | c in roles[j].capabilities) else before
    ensures Collected(a, roles, i, j + 1, after)
  {
    TakeSnoc(roles, j);
  }

  lemma CollectName(a: Account, roles: seq<Role>, i: nat, found: set<string>)
    requires i < |a.roles| && Collected(a, roles, i, |roles|, found)
    ensures Collected(a, roles, i + 1, 0, found)
  {
    TakeSnoc(a.roles, i);
    assert roles[..|roles|] == roles;
  }

  /** An account that is not enabled has no capabilities. Otherwise the list is ["*"] when one of its
      roles holds everything, and else all that its roles name, ascending and without repetition. */
  method EffectiveCapabilities(a: Account, roles: seq<Role>) returns (out: seq<string>)
    ensures !a.enabled ==> out == []
    ensures a.enabled && Named(a, roles, "*") ==> out == ["*"]
    ensures a.enabled && !Named(a, roles, "*") ==>
      StrictlySorted(Text.Less, out) && forall c :: c in out <==> Named(a, roles, c)
    ensures forall key :: HasCapability(out, key) <==> a.enabled && (Named(a, roles, "*") || Named(a, roles, key))
  {
    if !a.enabled { return []; }
    var found: set<string> := {};
    for i := 0 to |a.roles|
      invariant Collected(a, roles, i, 0, found) && "*" !in found
    {
      for j := 0 to |roles|
        invariant Collected(a, roles, i, j, found) && "*" !in found
      {
        ghost var before := found;
        if roles[j].id == a.roles[i] {
          var capabilities := roles[j].capabilities;
          for k := 0 to |capabilities|
            invariant found == before + (set c | c in capabilities[..k]) && "*" !in found
          {
            if capabilities[k] == "*" {
              assert capabilities[k] in capabilities && roles[j] in roles && Named(a, roles, "*");
              assert "*" in ["*"];
              return ["*"];
            }
            TakeSnoc(capabilities, k);
            found := found + {capabilities[k]};
          }
          assert capabilities[..|capabilities|] == capabilities;
        }
        CollectRole(a, roles, i, j, before, found);
      }
      CollectName(a, roles, i, found);
    }
    assert a.roles[..|a.roles|] == a.roles;
    assert forall c :: c in found <==> Named(a, roles, c);
    out := Elements(found);
    SortedStrings(out);
    out := StableSort(Text.Less, out);
  }

  /** The elements of a set, in whatever order. */
  method Elements<T(==)>(s: set<T>) returns (xs: seq<T>)
    ensures Distinct(xs) && forall x :: x in xs <==> x in s
  {
    xs := [];
    var todo := s;
    while todo != {}
      invariant todo <= s && Distinct(xs) && forall x :: x in xs <==> x in s - todo
    {
      var x :| x in todo;
      assert x !in xs;
      xs, todo := xs + [x], todo - {x};
    }
  }
}
